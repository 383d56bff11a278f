/** Sequential Read and Write calls compose: how a transfer is cut into calls does not
    matter (filesys/openfile.cc:74-88). */
module SequentialIO {
  import opened Bits
  import opened OpenFiles

  function Flatten(chunks: seq<seq<Byte>>): seq<Byte> {
    if chunks == [] then [] else chunks[0] + Flatten(chunks[1..])
  }

  function Total(sizes: seq<nat>): nat {
    if sizes == [] then 0 else sizes[0] + Total(sizes[1..])
  }

  /** Content and seek position after one Write call per chunk. */
  function WriteAll(c: seq<Byte>, position: nat, chunks: seq<seq<Byte>>): (seq<Byte>, nat)
    decreases |chunks|
  {
    if chunks == [] then (c, position)
    else WriteAll(Written(c, position, chunks[0]),
                  position + Transfer(|c|, |chunks[0]|, position), chunks[1..])
  }

  /** Bytes delivered and seek position after one Read call per size. */
  function ReadAll(c: seq<Byte>, position: nat, sizes: seq<nat>): (seq<Byte>, nat)
    decreases |sizes|
  {
    if sizes == [] then ([], position)
    else
      var (rest, end) := ReadAll(c, position + Transfer(|c|, sizes[0], position), sizes[1..]);
      (Slice(c, position, sizes[0]) + rest, end)
  }

  lemma TwoWrites(c: seq<Byte>, p: nat, a: seq<Byte>, b: seq<Byte>)
    ensures var q := p + Transfer(|c|, |a|, p);
            && Written(Written(c, p, a), q, b) == Written(c, p, a + b)
            && q + Transfer(|c|, |b|, q) == p + Transfer(|c|, |a + b|, p)
  {
    TwoTransfers(|c|, |a|, |b|, p);
    TwoContents(c, p, a, b, Transfer(|c|, |a|, p), Transfer(|c|, |b|, p + Transfer(|c|, |a|, p)));
  }

  lemma TwoContents(c: seq<Byte>, p: nat, a: seq<Byte>, b: seq<Byte>, n: nat, k: nat)
    requires n == Transfer(|c|, |a|, p) && k == Transfer(|c|, |b|, p + n) && (k > 0 ==> n == |a|)
    requires Transfer(|c|, |a + b|, p) == n + k
    ensures Written(Written(c, p, a), p + n, b) == Written(c, p, a + b)
  {
    if n == 0 {
      NothingFirst(c, p, a, b);
    } else if k == 0 {
      NothingAfter(c, p, a, b);
    } else {
      WholeThenMore(c, p, a, b, k);
    }
  }

  lemma NothingFirst(c: seq<Byte>, p: nat, a: seq<Byte>, b: seq<Byte>)
    requires Transfer(|c|, |a|, p) == 0
    ensures Written(Written(c, p, a), p, b) == Written(c, p, a + b)
  {
    if |a| == 0 {
      assert a + b == b;
    }
  }

  lemma NothingAfter(c: seq<Byte>, p: nat, a: seq<Byte>, b: seq<Byte>)
    requires Transfer(|c|, |a + b|, p) == Transfer(|c|, |a|, p) > 0
    requires Transfer(|c|, |b|, p + Transfer(|c|, |a|, p)) == 0
    ensures Written(Written(c, p, a), p + Transfer(|c|, |a|, p), b) == Written(c, p, a + b)
  {
    var n := Transfer(|c|, |a|, p);
    assert (a + b)[..n] == a[..n];
  }

  lemma WholeThenMore(c: seq<Byte>, p: nat, a: seq<Byte>, b: seq<Byte>, k: nat)
    requires |a| == Transfer(|c|, |a|, p) > 0 && k == Transfer(|c|, |b|, p + |a|) > 0
    requires Transfer(|c|, |a + b|, p) == |a| + k
    ensures Written(Written(c, p, a), p + |a|, b) == Written(c, p, a + b)
  {
    var w := Splice(c, p, a);
    assert Written(c, p, a) == w by { assert a[..|a|] == a; }
    assert Written(w, p + |a|, b) == Splice(w, p + |a|, b[..k]);
    assert Written(c, p, a + b) == Splice(c, p, a + b[..k]) by { assert (a + b)[..|a| + k] == a + b[..k]; }
    SpliceTwice(c, p, a, b[..k]);
  }

  /** Two transfers in sequence move as much as one of both sizes; the second moves nothing
      unless the first was whole. */
  lemma TwoTransfers(length: nat, x: nat, y: nat, p: nat)
    ensures var n := Transfer(length, x, p);
            var k := Transfer(length, y, p + n);
            Transfer(length, x + y, p) == n + k && (k > 0 ==> n == x)
  {
  }

  /** Any way of cutting a sequential write leaves the content, and the seek position, that
      one call would. */
  lemma {:induction false} ChunkedWrite(c: seq<Byte>, position: nat, chunks: seq<seq<Byte>>)
    ensures WriteAll(c, position, chunks)
         == (Written(c, position, Flatten(chunks)),
             position + Transfer(|c|, |Flatten(chunks)|, position))
    decreases |chunks|
  {
    if chunks != [] {
      var q := position + Transfer(|c|, |chunks[0]|, position);
      ChunkedWrite(Written(c, position, chunks[0]), q, chunks[1..]);
      TwoWrites(c, position, chunks[0], Flatten(chunks[1..]));
    }
  }

  lemma TwoReads(c: seq<Byte>, p: nat, n: nat, m: nat)
    ensures var q := p + Transfer(|c|, n, p);
            && Slice(c, p, n) + Slice(c, q, m) == Slice(c, p, n + m)
            && q + Transfer(|c|, m, q) == p + Transfer(|c|, n + m, p)
  {
  }

  /** Any way of cutting a sequential read delivers the bytes, and leaves the seek position,
      that one call would. */
  lemma {:induction false} ChunkedRead(c: seq<Byte>, position: nat, sizes: seq<nat>)
    ensures ReadAll(c, position, sizes)
         == (Slice(c, position, Total(sizes)),
             position + Transfer(|c|, Total(sizes), position))
    decreases |sizes|
  {
    if sizes != [] {
      var q := position + Transfer(|c|, sizes[0], position);
      ChunkedRead(c, q, sizes[1..]);
      TwoReads(c, position, sizes[0], Total(sizes[1..]));
    }
  }
}
