// What several modules share.
module Common {
  datatype Option<T> = None | Some(value: T)

  type Byte = b: int | 0 <= b < 256

  // Reading s[i], where the text s is followed by a terminator; nothing behind it can be read.
  function At<T>(s: seq<T>, i: nat, terminator: T): T
    requires i <= |s|
  {
    if i == |s| then terminator else s[i]
  }

  lemma Associate<T>(a: seq<T>, b: seq<T>, c: seq<T>)
    ensures (a + b) + c == a + (b + c)
  {
  }
}
