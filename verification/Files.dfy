/** Bytes, optional values, and the plain unbuffered file that a stream stands for. */
module Files {

  newtype byte = x: int | 0 <= x < 256

  datatype Option<+T> = None | Some(value: T)
  {
    predicate IsFailure() {
      None?
    }

    function PropagateFailure<U>(): Option<U>
      requires None?
    {
      None
    }

    function Extract(): T
      requires Some?
    {
      value
    }
  }

  /** A file as its user sees it: its bytes and one cursor, which may lie past the end. */
  datatype File = File(data: seq<byte>, pos: nat)
  {
    /** The bytes from the cursor to the end of the file. */
    function Rest(): seq<byte> {
      if pos <= |data| then data[pos..] else []
    }

    function Advance(n: nat): File {
      File(data, pos + n)
    }
  }

  lemma ConcatAssociates<T>(a: seq<T>, b: seq<T>, c: seq<T>)
    ensures a + b + c == a + (b + c)
  {
  }

  function Min(a: int, b: int): int {
    if a <= b then a else b
  }

  function Max(a: int, b: int): int {
    if a <= b then b else a
  }

  /** The contents after `s` has been written at `at`: exactly the bytes it covers change, and a gap
      before `at` reads as zeros. */
  function Overwrite(data: seq<byte>, at: nat, s: seq<byte>): (r: seq<byte>)
    ensures s != [] ==> |r| == Max(|data|, at + |s|)
  {
    if s == [] then data
    else seq(Max(|data|, at + |s|),
             k requires 0 <= k => if at <= k < at + |s| then s[k - at] else if k < |data| then data[k] else 0)
  }

  lemma OverwriteNothing(data: seq<byte>, at: nat)
    ensures Overwrite(data, at, []) == data
  {
  }

  lemma OverwriteAt(data: seq<byte>, at: nat, s: seq<byte>, k: nat)
    requires s != []
    ensures k < |Overwrite(data, at, s)| ==>
              Overwrite(data, at, s)[k] == if at <= k < at + |s| then s[k - at] else if k < |data| then data[k] else 0
  {
  }

  /** Writing `s` and then `t` right behind it is one write of `s + t`. */
  lemma OverwriteTwice(data: seq<byte>, at: nat, s: seq<byte>, t: seq<byte>)
    ensures Overwrite(Overwrite(data, at, s), at + |s|, t) == Overwrite(data, at, s + t)
  {
    var st := s + t;
    if s == [] || t == [] {
      assert st == if s == [] then t else s;
    } else {
      var once := Overwrite(data, at, s);
      var twice, both := Overwrite(once, at + |s|, t), Overwrite(data, at, st);
      forall k | 0 <= k < |both|
        ensures twice[k] == both[k]
      {
        hide Overwrite;
        OverwriteAt(data, at, s, k);
        OverwriteAt(once, at + |s|, t, k);
        OverwriteAt(data, at, st, k);
      }
    }
  }

  /** What was written is what is read back from the same place. */
  lemma OverwriteReadBack(data: seq<byte>, at: nat, s: seq<byte>)
    ensures s != [] ==> at + |s| <= |Overwrite(data, at, s)| && Overwrite(data, at, s)[at..at + |s|] == s
  {
  }
}
