/** The optional value used wherever the chat model may lack a field or a lookup may miss, and
    the minimum the pacing rules cap their pauses with. */
module Wrappers {

  datatype Option<+T> = None | Some(value: T)

  function Min(a: int, b: int): int
  {
    if a <= b then a else b
  }
}
