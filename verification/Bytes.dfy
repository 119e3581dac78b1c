/**
  Bytes, and the contents of files as byte strings.
 */
module Bytes {

  newtype byte = x: int | 0 <= x < 256

  datatype Option<+T> = None | Some(value: T) {
    predicate IsFailure() {
      None?
    }

    function PropagateFailure<U>(): Option<U>
      requires None?
    {
      None
    }

    function Extract(): T
      requires Some?
    {
      value
    }
  }

  // `unsigned char`, as a number
  type Uchar = x: nat | x < 256

  function Min(a: int, b: int): int {
    if a < b then a else b
  }

  function Max(a: int, b: int): int {
    if a > b then a else b
  }

  // n copies of one byte.
  function Fill(n: nat, b: byte): (r: seq<byte>)
    ensures |r| == n
    ensures forall i | 0 <= i < n :: r[i] == b
  {
    seq(n, i => b)
  }

  // Reading beyond the end of a byte string gives zeros.
  function At(f: seq<byte>, i: int): byte
    requires 0 <= i
  {
    if i < |f| then f[i] else 0
  }

  // The contents of a file f after s was written at an offset. A gap between
  // the old end and the offset reads as zeros. Writing nothing changes nothing.
  function Overwrite(f: seq<byte>, offset: nat, s: seq<byte>): (r: seq<byte>)
    ensures s == [] ==> r == f
    ensures |r| == if s == [] then |f| else Max(|f|, offset + |s|)
  {
    if s == [] then f
    else seq(Max(|f|, offset + |s|), i requires 0 <= i => if offset <= i < offset + |s| then s[i - offset] else At(f, i))
  }

  lemma OverwriteAt(f: seq<byte>, offset: nat, s: seq<byte>)
    ensures var r := Overwrite(f, offset, s);
            forall i | 0 <= i < |r| :: r[i] == if offset <= i < offset + |s| then s[i - offset] else At(f, i)
  {
  }

  // The contents after setting the length.
  function Truncate(f: seq<byte>, n: nat): (r: seq<byte>)
    ensures |r| == n
    ensures forall i | 0 <= i < n :: r[i] == At(f, i)
  {
    seq(n, i requires 0 <= i => At(f, i))
  }

  lemma SameBytes(f: seq<byte>, g: seq<byte>)
    requires |f| == |g|
    requires forall i | 0 <= i < |f| :: f[i] == g[i]
    ensures f == g
  {
  }

  // Writing a string in two pieces, the second right behind the first.
  lemma OverwriteTwice(f: seq<byte>, offset: nat, a: seq<byte>, b: seq<byte>)
    ensures Overwrite(Overwrite(f, offset, a), offset + |a|, b) == Overwrite(f, offset, a + b)
  {
    hide Overwrite;
    if a == [] {
      assert a + b == b;
    } else if b == [] {
      assert a + b == a;
    } else {
      var once := Overwrite(f, offset, a);
      OverwriteAt(f, offset, a);
      OverwriteAt(once, offset + |a|, b);
      OverwriteAt(f, offset, a + b);
      SameBytes(Overwrite(once, offset + |a|, b), Overwrite(f, offset, a + b));
    }
  }

  // Writing the slice s[i..j] behind the slice s[..i].
  lemma OverwriteSlice(f: seq<byte>, offset: nat, s: seq<byte>, i: nat, j: nat)
    requires i <= j <= |s|
    ensures Overwrite(Overwrite(f, offset, s[..i]), offset + i, s[i..j]) == Overwrite(f, offset, s[..j])
  {
    hide Overwrite;
    OverwriteTwice(f, offset, s[..i], s[i..j]);
    assert s[..i] + s[i..j] == s[..j];
  }

  // g differs from f only inside [offset, offset + size), and is no shorter.
  ghost predicate OnlyWithin(f: seq<byte>, g: seq<byte>, offset: nat, size: nat) {
    && |f| <= |g| <= Max(|f|, offset + size)
    && forall i | 0 <= i < |g| :: !(offset <= i < offset + size) ==> g[i] == At(f, i)
  }

  lemma OverwriteOnlyWithin(f: seq<byte>, offset: nat, s: seq<byte>, start: nat, size: nat)
    requires start <= offset && offset + |s| <= start + size
    ensures OnlyWithin(f, Overwrite(f, offset, s), start, size)
  {
  }

  lemma OnlyWithinPart(f: seq<byte>, g: seq<byte>, h: seq<byte>, offset: nat, size: nat, start: nat, part: nat)
    requires OnlyWithin(f, g, offset, size) && OnlyWithin(g, h, start, part)
    requires offset <= start && start + part <= offset + size
    ensures OnlyWithin(f, h, offset, size)
  {
  }

  lemma SubSlice(s: seq<byte>, a: nat, b: nat, i: nat, j: nat)
    requires a <= b <= |s| && i <= j <= b - a
    ensures s[a..b][i..j] == s[a + i..a + j]
  {
    forall t | 0 <= t < j - i
      ensures s[a..b][i..j][t] == s[a + i..a + j][t]
    {
    }
  }
}
