/**
  The handful of Python `str` operations the bot relies on, stated over `seq<char>`:
  `strip`, `find`, `in`, `startswith`, `split(sep)`, `sep.join`, `replace`, `lower`
  and the decimal rendering used by f-strings. Case folding and whitespace are ASCII only.
*/
module Text {

  /** The ASCII characters for which Python's `str.isspace()` holds: space, \t \n \v \f \r
      and the four information separators \x1c-\x1f. */
  predicate IsSpace(c: char)
  {
    c == ' ' || ('\t' <= c <= '\r') || ('\U{1C}' <= c <= '\U{1F}')
  }

  predicate AllSpace(s: string)
  {
    forall k :: 0 <= k < |s| ==> IsSpace(s[k])
  }

  /** Index of the first non-space character at or after `i`, or |s|. */
  function CoreStartFrom(s: string, i: nat): (r: nat)
    requires i <= |s|
    ensures i <= r <= |s|
    ensures forall k :: i <= k < r ==> IsSpace(s[k])
    ensures r < |s| ==> !IsSpace(s[r])
    decreases |s| - i
  {
    if i == |s| || !IsSpace(s[i]) then i else CoreStartFrom(s, i + 1)
  }

  /** One past the index of the last non-space character before `j`, or 0. */
  function CoreEndTo(s: string, j: nat): (r: nat)
    requires j <= |s|
    ensures r <= j
    ensures forall k :: r <= k < j ==> IsSpace(s[k])
    ensures 0 < r ==> !IsSpace(s[r - 1])
  {
    if j == 0 || !IsSpace(s[j - 1]) then j else CoreEndTo(s, j - 1)
  }

  function CoreStart(s: string): (i: nat)
    ensures i <= |s|
    ensures forall k :: 0 <= k < i ==> IsSpace(s[k])
    ensures i < |s| ==> !IsSpace(s[i])
  {
    CoreStartFrom(s, 0)
  }

  function CoreEnd(s: string): (j: nat)
    ensures j <= |s|
    ensures forall k :: j <= k < |s| ==> IsSpace(s[k])
    ensures 0 < j ==> !IsSpace(s[j - 1])
  {
    CoreEndTo(s, |s|)
  }

  /** Python's `s.strip()`: drop leading and trailing whitespace. */
  function Strip(s: string): string
  {
    var i, j := CoreStart(s), CoreEnd(s);
    if i < j then s[i..j] else []
  }

  /** Strip leaves nothing exactly when the text is all whitespace, and otherwise keeps a text
      that neither starts nor ends with whitespace. */
  lemma StripShape(s: string)
    ensures Strip(s) == [] <==> AllSpace(s)
    ensures Strip(s) != [] ==> !IsSpace(Strip(s)[0]) && !IsSpace(Strip(s)[|Strip(s)| - 1])
  {
    var i, j := CoreStart(s), CoreEnd(s);
    if i < j {
      assert !IsSpace(s[i]);
    } else {
      assert AllSpace(s) by {
        forall k | 0 <= k < |s| ensures IsSpace(s[k]) {
          assert k < i || j <= k;
        }
      }
    }
  }

  /** Strip removes exactly a whitespace prefix and a whitespace suffix: any split of `s` into
      space-only ends around a core that neither starts nor ends with a space is the one it finds. */
  lemma StripUnique(s: string, i: nat, j: nat)
    requires i <= j <= |s|
    requires forall k :: 0 <= k < i ==> IsSpace(s[k])
    requires forall k :: j <= k < |s| ==> IsSpace(s[k])
    requires i < j ==> !IsSpace(s[i]) && !IsSpace(s[j - 1])
    ensures Strip(s) == s[i..j]
  {
    var a, b := CoreStart(s), CoreEnd(s);
    if i < j {
      assert a == i;
      assert b == j;
    } else {
      assert AllSpace(s) by {
        forall k | 0 <= k < |s| ensures IsSpace(s[k]) {
          if k < i { } else { assert j <= k; }
        }
      }
    }
  }

  /** Stripping twice is stripping once. */
  lemma StripIdempotent(s: string)
    ensures Strip(Strip(s)) == Strip(s)
  {
    var r := Strip(s);
    StripShape(s);
    StripUnique(r, 0, |r|);
  }

  /** Whitespace in front of a string does not change what strip keeps. */
  lemma StripSpacePrefix(w: string, s: string)
    requires AllSpace(w)
    ensures Strip(w + s) == Strip(s)
  {
    var t := w + s;
    var i, j := CoreStart(s), CoreEnd(s);
    if i < j {
      StripShift(w, s, i, j);
    } else {
      StripShape(s);
      assert AllSpace(t) by {
        forall k | 0 <= k < |t| ensures IsSpace(t[k]) {
          if k < |w| { assert t[k] == w[k]; } else { assert t[k] == s[k - |w|]; }
        }
      }
      StripShape(t);
    }
  }

  lemma AppendSlice(w: string, s: string, i: nat, j: nat)
    requires i <= j <= |s|
    ensures (w + s)[|w| + i..|w| + j] == s[i..j]
  {
    var a := (w + s)[|w| + i..|w| + j];
    assert |a| == j - i;
    forall k | 0 <= k < j - i ensures a[k] == s[i..j][k] {
      assert a[k] == (w + s)[|w| + i + k];
    }
  }

  lemma StripShift(w: string, s: string, i: nat, j: nat)
    requires AllSpace(w)
    requires i == CoreStart(s) && j == CoreEnd(s) && i < j
    ensures Strip(w + s) == Strip(s)
  {
    var t := w + s;
    AppendSlice(w, s, i, j);
    assert Strip(s) == s[i..j];
    assert Strip(t) == t[|w| + i..|w| + j] by {
      forall k | 0 <= k < |w| + i ensures IsSpace(t[k]) {
        if k < |w| { assert t[k] == w[k]; } else { assert t[k] == s[k - |w|]; }
      }
      forall k | |w| + j <= k < |t| ensures IsSpace(t[k]) {
        assert t[k] == s[k - |w|];
      }
      assert t[|w| + i] == s[i] && t[|w| + j - 1] == s[j - 1];
      StripUnique(t, |w| + i, |w| + j);
    }
  }

  /** Whitespace after a string does not change what strip keeps. */
  lemma StripSpaceSuffix(s: string, w: string)
    requires AllSpace(w)
    ensures Strip(s + w) == Strip(s)
  {
    var t := s + w;
    var i, j := CoreStart(s), CoreEnd(s);
    if i < j {
      StripExtend(s, w, i, j);
    } else {
      StripShape(s);
      assert AllSpace(t) by {
        forall k | 0 <= k < |t| ensures IsSpace(t[k]) {
          if k < |s| { assert t[k] == s[k]; } else { assert t[k] == w[k - |s|]; }
        }
      }
      StripShape(t);
    }
  }

  lemma StripExtend(s: string, w: string, i: nat, j: nat)
    requires AllSpace(w)
    requires i == CoreStart(s) && j == CoreEnd(s) && i < j
    ensures Strip(s + w) == Strip(s)
  {
    var t := s + w;
    assert t[i..j] == s[i..j] by {
      assert t[..|s|] == s;
      assert t[i..j] == t[..|s|][i..j];
    }
    assert Strip(s) == s[i..j];
    assert Strip(t) == t[i..j] by {
      forall k | 0 <= k < i ensures IsSpace(t[k]) {
        assert t[k] == s[k];
      }
      forall k | j <= k < |t| ensures IsSpace(t[k]) {
        if k < |s| { assert t[k] == s[k]; } else { assert t[k] == w[k - |s|]; }
      }
      assert t[i] == s[i] && t[j - 1] == s[j - 1];
      StripUnique(t, i, j);
    }
  }

  /** `sub` occurs in `s` starting at index `k`. */
  predicate OccursAt(s: string, sub: string, k: int)
  {
    0 <= k && k + |sub| <= |s| && s[k..k + |sub|] == sub
  }

  lemma OccursAtTail(s: string, sub: string, k: int)
    requires |s| > 0 && 0 <= k
    ensures OccursAt(s[1..], sub, k) <==> OccursAt(s, sub, k + 1)
  {
    if 0 <= k && k + |sub| <= |s[1..]| {
      assert s[1..][k..k + |sub|] == s[k + 1..k + 1 + |sub|];
    }
  }

  /** Python's `s.find(sub)`: the lowest index where `sub` occurs, or -1. */
  function Find(s: string, sub: string): (r: int)
    ensures r == -1 || OccursAt(s, sub, r)
    ensures r == -1 ==> forall k :: !OccursAt(s, sub, k)
    ensures forall k :: 0 <= k < r ==> !OccursAt(s, sub, k)
    decreases |s|
  {
    if |s| < |sub| then -1
    else if s[..|sub|] == sub then 0
    else
      var j := Find(s[1..], sub);
      assert forall k :: 0 <= k ==> (OccursAt(s[1..], sub, k) <==> OccursAt(s, sub, k + 1)) by {
        forall k | 0 <= k ensures OccursAt(s[1..], sub, k) <==> OccursAt(s, sub, k + 1) {
          OccursAtTail(s, sub, k);
        }
      }
      assert forall k :: OccursAt(s, sub, k) && k != 0 ==> OccursAt(s[1..], sub, k - 1) by {
        forall k | OccursAt(s, sub, k) && k != 0 ensures OccursAt(s[1..], sub, k - 1) {
          OccursAtTail(s, sub, k - 1);
        }
      }
      if j == -1 then -1 else j + 1
  }

  /** Python's `sub in s`. */
  predicate Contains(s: string, sub: string)
  {
    Find(s, sub) != -1
  }

  /** Python's `s.startswith(prefix)`. */
  predicate StartsWith(s: string, prefix: string)
  {
    |prefix| <= |s| && s[..|prefix|] == prefix
  }

  /** A character that is not in `s` cannot occur in it. */
  lemma NoCharNoOccurrence(s: string, c: char)
    requires c !in s
    ensures !Contains(s, [c])
  {
    forall k | 0 <= k < |s| ensures !OccursAt(s, [c], k) {
      assert s[k..k + 1] == [s[k]];
    }
  }

  /** For one character, "contains" is membership. */
  lemma ContainsChar(s: string, c: char)
    ensures Contains(s, [c]) <==> c in s
  {
    if c in s {
      var k :| 0 <= k < |s| && s[k] == c;
      assert s[k..k + 1] == [c];
      assert OccursAt(s, [c], k);
    } else {
      NoCharNoOccurrence(s, c);
    }
  }

  /** Where a one-character find succeeds: at that character, with none of it before, so the
      text is cut there as before + [c] + after. */
  lemma FindCharCut(s: string, c: char)
    requires Find(s, [c]) != -1
    ensures var k := Find(s, [c]);
      s[k] == c && c !in s[..k] && s == s[..k] + [c] + s[k + 1..]
  {
    var k := Find(s, [c]);
    assert s[k..k + 1] == [c];
    forall m | 0 <= m < k ensures s[..k][m] != c {
      assert !OccursAt(s, [c], m);
      assert s[m..m + 1] == [s[m]];
    }
  }

  /** An occurrence inside a prefix of `s` is an occurrence in `s`. */
  lemma OccursInPrefix(s: string, sub: string, n: nat, k: int)
    requires n <= |s|
    ensures OccursAt(s[..n], sub, k) ==> OccursAt(s, sub, k)
  {
    if OccursAt(s[..n], sub, k) {
      assert s[..n][k..k + |sub|] == s[k..k + |sub|];
    }
  }

  /** Python's `sep.join(parts)`. */
  function Join(parts: seq<string>, sep: string): string
    decreases |parts|
  {
    if |parts| == 0 then []
    else if |parts| == 1 then parts[0]
    else parts[0] + sep + Join(parts[1..], sep)
  }

  /** Appending a part to a non-empty join puts exactly one separator before it. */
  lemma {:induction false} JoinSnoc(parts: seq<string>, x: string, sep: string)
    requires parts != []
    ensures Join(parts + [x], sep) == Join(parts, sep) + sep + x
    decreases |parts|
  {
    if |parts| == 1 {
      assert parts + [x] == [parts[0], x];
    } else {
      assert (parts + [x])[1..] == parts[1..] + [x];
      JoinSnoc(parts[1..], x, sep);
    }
  }

  /** Python's `s.split(sep)` for a non-empty separator: cut at every occurrence of `sep`,
      scanning left to right. */
  function Split(s: string, sep: string): (parts: seq<string>)
    requires sep != []
    ensures |parts| >= 1
    decreases |s|
  {
    var i := Find(s, sep);
    if i == -1 then [s] else [s[..i]] + Split(s[i + |sep|..], sep)
  }

  /** No piece of a split contains the separator. */
  lemma {:induction false} SplitPiecesFree(s: string, sep: string)
    requires sep != []
    ensures forall k :: 0 <= k < |Split(s, sep)| ==> !Contains(Split(s, sep)[k], sep)
    decreases |s|
  {
    var i := Find(s, sep);
    if i != -1 {
      forall k ensures !OccursAt(s[..i], sep, k) {
        OccursInPrefix(s, sep, i, k);
      }
      SplitPiecesFree(s[i + |sep|..], sep);
    }
  }

  lemma JoinCons(a: string, ps: seq<string>, sep: string)
    requires ps != []
    ensures Join([a] + ps, sep) == a + sep + Join(ps, sep)
  {
    assert ([a] + ps)[1..] == ps;
  }

  lemma JoinThree(a: string, b: string, c: string, sep: string)
    ensures Join([a, b, c], sep) == a + sep + b + sep + c
  {
    JoinCons(b, [c], sep);
    assert [a, b, c] == [a] + [b, c];
    JoinCons(a, [b, c], sep);
  }

  /** The first cut of a split. */
  lemma SplitCut(s: string, sep: string, i: int)
    requires sep != [] && i == Find(s, sep) && i != -1
    ensures Split(s, sep) == [s[..i]] + Split(s[i + |sep|..], sep)
  {
  }

  /** Splitting and joining with the same separator gives the text back. */
  lemma {:induction false} SplitJoin(s: string, sep: string)
    requires sep != []
    ensures Join(Split(s, sep), sep) == s
    decreases |s|
  {
    var i := Find(s, sep);
    if i != -1 {
      var rest := s[i + |sep|..];
      SplitCut(s, sep, i);
      SplitJoin(rest, sep);
      JoinCons(s[..i], Split(rest, sep), sep);
      assert s[i..i + |sep|] == sep;
      assert s == s[..i] + s[i..i + |sep|] + rest;
    }
  }

  /** Every piece of a split of an all-space text is all space. */
  lemma {:induction false} SplitAllSpace(s: string, sep: string)
    requires sep != [] && AllSpace(s)
    ensures forall k :: 0 <= k < |Split(s, sep)| ==> AllSpace(Split(s, sep)[k])
    decreases |s|
  {
    var i := Find(s, sep);
    if i != -1 {
      SplitAllSpace(s[i + |sep|..], sep);
    }
  }

  /** An occurrence with none before it is what find reports. */
  lemma FindIs(s: string, sub: string, r: int)
    requires OccursAt(s, sub, r)
    requires forall k :: 0 <= k < r ==> !OccursAt(s, sub, k)
    ensures Find(s, sub) == r
  {
  }

  /** Text added after the first occurrence does not move it. */
  lemma FindExtend(x: string, z: string, sub: string)
    requires Find(x, sub) != -1
    ensures Find(x + z, sub) == Find(x, sub)
  {
    var r := Find(x, sub);
    assert (x + z)[r..r + |sub|] == x[r..r + |sub|];
    forall k | 0 <= k < r ensures !OccursAt(x + z, sub, k) {
      assert (x + z)[k..k + |sub|] == x[k..k + |sub|];
      assert !OccursAt(x, sub, k);
    }
    FindIs(x + z, sub, r);
  }

  /** A character absent from `x` is first found right after `x`. */
  lemma FindCharAfter(x: string, c: char, y: string)
    requires Find(x, [c]) == -1
    ensures Find(x + [c] + y, [c]) == |x|
  {
    var s := x + [c] + y;
    assert s[|x|..|x| + 1] == [c];
    forall k | 0 <= k < |x| ensures !OccursAt(s, [c], k) {
      assert s[k..k + 1] == x[k..k + 1];
      assert !OccursAt(x, [c], k);
    }
    FindIs(s, [c], |x|);
  }

  /** Gluing a text without the separator character in front of another. */
  lemma SplitConcatFirst(x: string, c: char, y: string)
    requires Find(x, [c]) == -1
    ensures Split(x + [c] + y, [c]) == [x] + Split(y, [c])
  {
    var s := x + [c] + y;
    FindCharAfter(x, c, y);
    SplitCut(s, [c], |x|);
    assert s[..|x|] == x;
    assert s[|x| + 1..] == y;
  }

  /** For a one-character separator, splitting text glued at a separator is the two splits
      placed side by side. */
  lemma {:induction false} SplitConcat(x: string, c: char, y: string)
    ensures Split(x + [c] + y, [c]) == Split(x, [c]) + Split(y, [c])
    decreases |x|, 1
  {
    var i := Find(x, [c]);
    if i == -1 {
      SplitConcatFirst(x, c, y);
    } else {
      SplitConcatLater(x, c, y, i);
    }
  }

  /** The case of SplitConcat where `x` itself holds the separator, first at index `i`. */
  lemma {:induction false} SplitConcatLater(x: string, c: char, y: string, i: int)
    requires i == Find(x, [c]) && i != -1
    ensures Split(x + [c] + y, [c]) == Split(x, [c]) + Split(y, [c])
    decreases |x|, 0
  {
    var s := x + [c] + y;
    var b := x[i + 1..];
    assert Split(s, [c]) == [x[..i]] + Split(b + [c] + y, [c]) by {
      assert s == x + ([c] + y);
      FindExtend(x, [c] + y, [c]);
      SplitCut(s, [c], i);
      assert s[..i] == x[..i];
      assert s[i + 1..] == b + [c] + y;
    }
    assert Split(x, [c]) == [x[..i]] + Split(b, [c]) by {
      SplitCut(x, [c], i);
    }
    assert Split(b + [c] + y, [c]) == Split(b, [c]) + Split(y, [c]) by {
      SplitConcat(b, c, y);
    }
    Regroup(x[..i], Split(s, [c]), Split(b + [c] + y, [c]), Split(x, [c]), Split(b, [c]), Split(y, [c]));
  }

  lemma Regroup<T>(a: T, whole: seq<T>, rest: seq<T>, left: seq<T>, mid: seq<T>, right: seq<T>)
    requires whole == [a] + rest && rest == mid + right && left == [a] + mid
    ensures whole == left + right
  {
  }

  /** A text without the separator character is one piece. */
  lemma SplitNoSeparator(s: string, c: char)
    requires c !in s
    ensures Split(s, [c]) == [s]
  {
    NoCharNoOccurrence(s, c);
  }

  /** Python's `s.replace(target, replacement)` for a non-empty target: every occurrence found
      scanning left to right, without overlaps, is replaced. */
  function Replace(s: string, target: string, replacement: string): string
    requires target != []
    decreases |s|
  {
    var i := Find(s, target);
    if i == -1 then s
    else s[..i] + replacement + Replace(s[i + |target|..], target, replacement)
  }

  /** Replacing is splitting on the target and joining with the replacement: every occurrence
      the split cuts at receives the very same replacement text. */
  lemma {:induction false} ReplaceIsSplitJoin(s: string, target: string, replacement: string)
    requires target != []
    ensures Replace(s, target, replacement) == Join(Split(s, target), replacement)
    decreases |s|
  {
    var i := Find(s, target);
    if i != -1 {
      var rest := s[i + |target|..];
      ReplaceIsSplitJoin(rest, target, replacement);
      var ps := Split(rest, target);
      assert Split(s, target) == [s[..i]] + ps;
      assert ([s[..i]] + ps)[1..] == ps;
    }
  }

  function LowerChar(c: char): char
  {
    if 'A' <= c <= 'Z' then (c as int + 32) as char else c
  }

  /** Python's `s.lower()` on ASCII letters. */
  function Lower(s: string): (r: string)
    ensures |r| == |s|
  {
    seq(|s|, k requires 0 <= k < |s| => LowerChar(s[k]))
  }

  /** Case-insensitive equality as `a.lower() == b.lower()`. */
  predicate SameIgnoringCase(a: string, b: string)
  {
    Lower(a) == Lower(b)
  }

  function DigitChar(d: nat): char
    requires d < 10
  {
    "0123456789"[d]
  }

  predicate IsDigit(c: char)
  {
    '0' <= c <= '9'
  }

  /** The decimal text Python's f-strings give a non-negative integer. */
  function NatToString(n: nat): (r: string)
    ensures |r| >= 1
    ensures forall k :: 0 <= k < |r| ==> IsDigit(r[k])
    ensures |r| > 1 ==> r[0] != '0'
    ensures n < 10 <==> |r| == 1
    decreases n
  {
    if n < 10 then [DigitChar(n)] else NatToString(n / 10) + [DigitChar(n % 10)]
  }

  /** The value a string of decimal digits denotes. */
  function DecimalValue(s: string): nat
    requires forall k :: 0 <= k < |s| ==> IsDigit(s[k])
    decreases |s|
  {
    if s == [] then 0
    else
      assert IsDigit(s[|s| - 1]);
      10 * DecimalValue(s[..|s| - 1]) + (s[|s| - 1] as int - '0' as int)
  }

  /** Reading back the decimal text of `n` gives `n`. */
  lemma {:induction false} DecimalRoundTrip(n: nat)
    ensures DecimalValue(NatToString(n)) == n
    decreases n
  {
    if n >= 10 {
      DecimalRoundTrip(n / 10);
      var r := NatToString(n);
      assert r[..|r| - 1] == NatToString(n / 10);
    }
  }
}
