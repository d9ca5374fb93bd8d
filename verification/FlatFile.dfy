/** A file as its users see it: bytes and a cursor. */
module FlatFile {
  type byte = x: int | 0 <= x < 256

  /** f with buf written over it from pos on; f grows when buf reaches past its end. */
  function Splice(f: seq<byte>, pos: nat, buf: seq<byte>): seq<byte>
    requires pos <= |f|
  {
    f[..pos] + buf + if pos + |buf| < |f| then f[pos + |buf|..] else []
  }

  lemma SpliceLength(f: seq<byte>, pos: nat, buf: seq<byte>)
    requires pos <= |f|
    ensures |Splice(f, pos, buf)| == if pos + |buf| < |f| then |f| else pos + |buf|
  {
  }

  lemma SpliceAt(f: seq<byte>, pos: nat, buf: seq<byte>, i: nat)
    requires pos <= |f| && i < |Splice(f, pos, buf)|
    ensures Splice(f, pos, buf)[i] == if pos <= i < pos + |buf| then buf[i - pos] else f[i]
  {
  }

  /** Two writes in a row are one write of the joined buffers. */
  lemma SpliceTwice(f: seq<byte>, pos: nat, a: seq<byte>, b: seq<byte>)
    requires pos <= |f|
    ensures pos + |a| <= |Splice(f, pos, a)|
    ensures Splice(Splice(f, pos, a), pos + |a|, b) == Splice(f, pos, a + b)
  {
    var x, y := Splice(Splice(f, pos, a), pos + |a|, b), Splice(f, pos, a + b);
    SpliceLength(f, pos, a);
    SpliceLength(Splice(f, pos, a), pos + |a|, b);
    SpliceLength(f, pos, a + b);
    forall i | 0 <= i < |x|
      ensures x[i] == y[i]
    {
      hide Splice;
      SpliceAt(Splice(f, pos, a), pos + |a|, b, i);
      SpliceAt(f, pos, a + b, i);
      if i < |Splice(f, pos, a)| {
        SpliceAt(f, pos, a, i);
      }
    }
  }
}
