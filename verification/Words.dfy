/** Host memory as bytes, and patches of little-endian 32-bit words in it. */
module Words {
  import opened Types
  import opened OrderedSet

  type u32 = x: int | 0 <= x < 0x1_0000_0000

  /** Byte i of a word, from the low end. */
  function WordByte(v: u32, i: int): u8 {
    if i <= 0 then v % 256
    else if i == 1 then (v / 256) % 256
    else if i == 2 then (v / 256 / 256) % 256
    else v / 256 / 256 / 256
  }

  function JoinBytes(b0: u8, b1: u8, b2: u8, b3: u8): u32 {
    b0 + 256 * b1 + 65536 * b2 + 16777216 * b3
  }

  function ReadWord(ram: seq<u8>, a: nat): u32
    requires a + 4 <= |ram|
  {
    JoinBytes(ram[a], ram[a + 1], ram[a + 2], ram[a + 3])
  }

  function WriteWord(ram: seq<u8>, a: nat, v: u32): (r: seq<u8>)
    requires a + 4 <= |ram|
    ensures |r| == |ram|
    ensures forall x :: 0 <= x < |ram| ==> r[x] == if a <= x < a + 4 then WordByte(v, x - a) else ram[x]
  {
    ram[a := WordByte(v, 0)][a + 1 := WordByte(v, 1)][a + 2 := WordByte(v, 2)][a + 3 := WordByte(v, 3)]
  }

  lemma JoinSplit(v: u32)
    ensures JoinBytes(WordByte(v, 0), WordByte(v, 1), WordByte(v, 2), WordByte(v, 3)) == v
  {
    var q1 := v / 256;
    var q2 := q1 / 256;
    assert v == 256 * q1 + v % 256 && q1 == 256 * q2 + q1 % 256 && q2 == 256 * (q2 / 256) + q2 % 256;
  }

  /** A word is either set, or has an amount added to it. */
  datatype Patch = Store(addr: nat, value: int) | AddTo(addr: nat, amount: int)

  function PatchedWord(p: Patch, word: u32): u32 {
    match p
    case Store(_, value) => value % U32
    case AddTo(_, amount) => (word + amount) % U32
  }

  function ApplyPatch(ram: seq<u8>, p: Patch): (r: seq<u8>)
    requires p.addr + 4 <= |ram|
    ensures |r| == |ram|
  {
    WriteWord(ram, p.addr, PatchedWord(p, ReadWord(ram, p.addr)))
  }

  predicate InBounds(ps: seq<Patch>, n: nat) {
    forall k :: 0 <= k < |ps| ==> ps[k].addr + 4 <= n
  }

  function ApplyAll(ram: seq<u8>, ps: seq<Patch>): (r: seq<u8>)
    requires InBounds(ps, |ram|)
    ensures |r| == |ram|
    decreases |ps|
  {
    if ps == [] then ram else ApplyAll(ApplyPatch(ram, ps[0]), ps[1..])
  }

  lemma {:induction false} ApplyFirst(ram: seq<u8>, ps: seq<Patch>, p: Patch, rest: seq<Patch>)
    requires InBounds(ps, |ram|) && ps == [p] + rest && InBounds(rest, |ram|) && p.addr + 4 <= |ram|
    ensures ApplyAll(ram, ps) == ApplyAll(ApplyPatch(ram, p), rest)
  {
    assert ps[0] == p && ps[1..] == rest;
  }

  predicate Hits(p: Patch, x: int) {
    p.addr <= x < p.addr + 4
  }

  predicate Apart(p: Patch, q: Patch) {
    p.addr + 4 <= q.addr || q.addr + 4 <= p.addr
  }

  /** No two patched words overlap. */
  ghost predicate Disjoint(ps: seq<Patch>) {
    forall i, j :: 0 <= i < j < |ps| ==> Apart(ps[i], ps[j])
  }

  /** A byte that no patched word covers is unchanged. */
  lemma {:induction false} ElsewhereUnchanged(ram: seq<u8>, ps: seq<Patch>, x: nat)
    requires InBounds(ps, |ram|) && x < |ram|
    requires forall k :: 0 <= k < |ps| ==> !Hits(ps[k], x)
    ensures ApplyAll(ram, ps)[x] == ram[x]
    decreases |ps|
  {
    if ps == [] {
    } else {
      assert !Hits(ps[0], x);
      ElsewhereUnchanged(ApplyPatch(ram, ps[0]), ps[1..], x);
    }
  }

  lemma PatchOtherWord(ram: seq<u8>, p: Patch, q: Patch)
    requires p.addr + 4 <= |ram| && q.addr + 4 <= |ram| && Apart(p, q)
    ensures ReadWord(ApplyPatch(ram, p), q.addr) == ReadWord(ram, q.addr)
  {
  }

  /** Every byte of patch k's word is that of the word patched once, from its original value. */
  lemma {:induction false} PatchedByte(ram: seq<u8>, ps: seq<Patch>, k: nat, x: nat)
    requires InBounds(ps, |ram|) && Disjoint(ps) && k < |ps| && Hits(ps[k], x)
    ensures ApplyAll(ram, ps)[x] == WordByte(PatchedWord(ps[k], ReadWord(ram, ps[k].addr)), x - ps[k].addr)
    decreases |ps|
  {
    var first := ApplyPatch(ram, ps[0]);
    if k == 0 {
      forall j | 0 <= j < |ps[1..]|
        ensures !Hits(ps[1..][j], x)
      {
        assert Apart(ps[0], ps[j + 1]);
      }
      ElsewhereUnchanged(first, ps[1..], x);
    } else {
      assert Apart(ps[0], ps[k]);
      PatchOtherWord(ram, ps[0], ps[k]);
      PatchedByte(first, ps[1..], k - 1, x);
    }
  }

  /** Each word ends up patched exactly once, from its original value. */
  lemma {:induction false} PatchedOnce(ram: seq<u8>, ps: seq<Patch>, k: nat)
    requires InBounds(ps, |ram|) && Disjoint(ps) && k < |ps|
    ensures ReadWord(ApplyAll(ram, ps), ps[k].addr) == PatchedWord(ps[k], ReadWord(ram, ps[k].addr))
  {
    var a := ps[k].addr;
    PatchedByte(ram, ps, k, a);
    PatchedByte(ram, ps, k, a + 1);
    PatchedByte(ram, ps, k, a + 2);
    PatchedByte(ram, ps, k, a + 3);
    JoinSplit(PatchedWord(ps[k], ReadWord(ram, a)));
  }

  lemma SameElements(ps: seq<Patch>, qs: seq<Patch>, k: nat) returns (j: nat)
    requires multiset(ps) == multiset(qs) && k < |ps|
    ensures j < |qs| && qs[j] == ps[k]
  {
    assert ps[k] in multiset(qs);
    j :| 0 <= j < |qs| && qs[j] == ps[k];
  }

  /** Non-overlapping patches are pairwise different. */
  lemma {:induction false} DisjointCount(ps: seq<Patch>, p: Patch)
    requires Disjoint(ps)
    ensures multiset(ps)[p] == if p in ps then 1 else 0
  {
    if ps == [] {
    } else {
      assert ps == [ps[0]] + ps[1..];
      DisjointCount(ps[1..], p);
      forall k | 0 <= k < |ps[1..]|
        ensures Apart(ps[0], ps[1..][k])
      {
        assert ps[1..][k] == ps[k + 1];
      }
    }
  }

  lemma DisjointPermuted(ps: seq<Patch>, qs: seq<Patch>)
    requires Disjoint(ps) && multiset(ps) == multiset(qs)
    ensures Disjoint(qs)
  {
    forall i, j | 0 <= i < j < |qs|
      ensures Apart(qs[i], qs[j])
    {
      var k := SameElements(qs, ps, i);
      var l := SameElements(qs, ps, j);
      DisjointCount(ps, qs[i]);
      if qs[i] == qs[j] {
        TwiceCounted(qs, i, j);
      }
      assert k < l ==> Apart(ps[k], ps[l]);
      assert l < k ==> Apart(ps[l], ps[k]);
    }
  }

  /** The order of non-overlapping patches does not matter. */
  lemma {:induction false} PatchOrderIrrelevant(ram: seq<u8>, ps: seq<Patch>, qs: seq<Patch>)
    requires InBounds(ps, |ram|) && Disjoint(ps) && multiset(ps) == multiset(qs)
    ensures InBounds(qs, |ram|) && ApplyAll(ram, ps) == ApplyAll(ram, qs)
  {
    DisjointPermuted(ps, qs);
    forall j | 0 <= j < |qs|
      ensures qs[j].addr + 4 <= |ram|
    {
      var k := SameElements(qs, ps, j);
    }
    forall x | 0 <= x < |ram|
      ensures ApplyAll(ram, ps)[x] == ApplyAll(ram, qs)[x]
    {
      if k :| 0 <= k < |ps| && Hits(ps[k], x) {
        var j := SameElements(ps, qs, k);
        PatchedByte(ram, ps, k, x);
        PatchedByte(ram, qs, j, x);
      } else {
        ElsewhereUnchanged(ram, ps, x);
        forall j | 0 <= j < |qs|
          ensures !Hits(qs[j], x)
        {
          var k := SameElements(qs, ps, j);
        }
        ElsewhereUnchanged(ram, qs, x);
      }
    }
  }
}
