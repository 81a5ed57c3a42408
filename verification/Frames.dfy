/** Physical frames: a bitmap read as a set of used frame numbers, and what
    allocation does to that set. */
module Frames {

  const FRAME_SIZE := 4096

  // ----- bits of one word

  predicate Bit(w: bv32, j: bv32)
    requires j < 32
  {
    w & (1 << j) != 0
  }

  function WithBit(w: bv32, j: bv32): bv32
    requires j < 32
  {
    w | (1 << j)
  }

  function WithoutBit(w: bv32, j: bv32): bv32
    requires j < 32
  {
    w & !(1 << j)
  }

  lemma SetOneBit(w: bv32, v: bv32, j: bv32, k: bv32)
    requires j < 32 && k < 32 && v == WithBit(w, j)
    ensures Bit(v, k) <==> Bit(w, k) || j == k
  {
  }

  lemma ClearOneBit(w: bv32, v: bv32, j: bv32, k: bv32)
    requires j < 32 && k < 32 && v == WithoutBit(w, j)
    ensures Bit(v, k) <==> Bit(w, k) && j != k
  {
  }

  lemma AllOnes(w: bv32, j: bv32)
    requires w == 0xFFFF_FFFF && j < 32
    ensures Bit(w, j)
  {
  }

  /** A frame's place in its word. */
  function Place(f: nat): (j: bv32)
    ensures j < 32
  {
    ((f % 32) as bv5) as bv32
  }

  lemma PlaceIs(f: nat)
    ensures Place(f) as int == f % 32
  {
  }

  lemma SameFrame(f: nat, g: nat)
    ensures f == g <==> f / 32 == g / 32 && Place(f) == Place(g)
  {
    PlaceIs(f);
    PlaceIs(g);
  }

  lemma PlaceInWord(i: nat, k: nat)
    requires k < 32
    ensures (32 * i + k) / 32 == i && Place(32 * i + k) == Place(k)
  {
    assert (32 * i + k) % 32 == k;
  }

  lemma NotAllOnes(w: bv32)
    requires w != 0xFFFF_FFFF
    ensures exists j: nat :: j < 32 && !Bit(w, Place(j))
  {
    if forall j: nat :: j < 32 ==> Bit(w, Place(j)) {
      EveryBit(w);
      assert false;
    }
  }

  lemma EveryBit(w: bv32)
    requires forall j: nat :: j < 32 ==> Bit(w, Place(j))
    ensures w == 0xFFFF_FFFF
  {
    EveryPlace(w);
    EveryLiteralBit(w);
  }

  lemma PlaceOf(b: bv5)
    ensures Place(b as int) == b as bv32
  {
  }

  lemma EveryPlace(w: bv32)
    requires forall j: nat :: j < 32 ==> Bit(w, Place(j))
    ensures EachBit(w)
  {
    forall k: bv32 | k < 32 ensures Bit(w, k) {
      FiveBits(k);
      PlaceOf(k as bv5);
    }
  }

  lemma FiveBits(k: bv32)
    requires k < 32
    ensures (k as bv5) as bv32 == k
  {
  }

  predicate EachBit(w: bv32) {
    && Bit(w, 0) && Bit(w, 1) && Bit(w, 2) && Bit(w, 3) && Bit(w, 4) && Bit(w, 5) && Bit(w, 6) && Bit(w, 7)
    && Bit(w, 8) && Bit(w, 9) && Bit(w, 10) && Bit(w, 11) && Bit(w, 12) && Bit(w, 13) && Bit(w, 14) && Bit(w, 15)
    && Bit(w, 16) && Bit(w, 17) && Bit(w, 18) && Bit(w, 19) && Bit(w, 20) && Bit(w, 21) && Bit(w, 22) && Bit(w, 23)
    && Bit(w, 24) && Bit(w, 25) && Bit(w, 26) && Bit(w, 27) && Bit(w, 28) && Bit(w, 29) && Bit(w, 30) && Bit(w, 31)
  }

  lemma EveryLiteralBit(w: bv32)
    requires EachBit(w)
    ensures w == 0xFFFF_FFFF
  {
  }

  // ----- the bitmap as a set

  /** Frame f's bit is set. */
  predicate Marked(bm: seq<bv32>, f: nat)
    requires f < 32 * |bm|
  {
    Bit(bm[f / 32], Place(f))
  }

  function UsedFrames(bm: seq<bv32>): set<nat> {
    set f: nat | f < 32 * |bm| && Marked(bm, f)
  }

  lemma WordUpdate(bm: seq<bv32>, f: nat, w: bv32, g: nat)
    requires f < 32 * |bm| && g < 32 * |bm|
    ensures Marked(bm[f / 32 := w], g) <==> if g / 32 == f / 32 then Bit(w, Place(g)) else Marked(bm, g)
  {
  }

  lemma MarkOne(bm: seq<bv32>, f: nat)
    requires f < 32 * |bm|
    ensures UsedFrames(bm[f / 32 := WithBit(bm[f / 32], Place(f))]) == UsedFrames(bm) + {f}
  {
    var w := WithBit(bm[f / 32], Place(f));
    forall g: nat | g < 32 * |bm| ensures Marked(bm[f / 32 := w], g) <==> Marked(bm, g) || g == f {
      WordUpdate(bm, f, w, g);
      SetOneBit(bm[f / 32], w, Place(f), Place(g));
      SameFrame(f, g);
    }
  }

  lemma UnmarkOne(bm: seq<bv32>, f: nat)
    requires f < 32 * |bm|
    ensures UsedFrames(bm[f / 32 := WithoutBit(bm[f / 32], Place(f))]) == UsedFrames(bm) - {f}
  {
    var w := WithoutBit(bm[f / 32], Place(f));
    forall g: nat | g < 32 * |bm| ensures Marked(bm[f / 32 := w], g) <==> Marked(bm, g) && g != f {
      WordUpdate(bm, f, w, g);
      ClearOneBit(bm[f / 32], w, Place(f), Place(g));
      SameFrame(f, g);
    }
  }

  // ----- allocation on sets

  /** The lowest frame in [from, limit) that is not used, or limit. */
  function LowestFree(used: set<nat>, from: nat, limit: nat): (f: nat)
    requires from <= limit
    ensures from <= f <= limit
    ensures forall g :: from <= g < f ==> g in used
    ensures f < limit ==> f !in used
    decreases limit - from
  {
    if from == limit || from !in used then from else LowestFree(used, from + 1, limit)
  }

  /** Frames that an allocation can hand out: whole bitmap words only. */
  function Limit(total: nat): (n: nat)
    ensures n <= total < n + 32 && n % 32 == 0
  {
    32 * (total / 32)
  }

  function FreeCount(used: set<nat>, total: nat): nat {
    |set f: nat | f < total && f !in used|
  }

  lemma CountStep(used: set<nat>, i: nat)
    ensures FreeCount(used, i + 1) == FreeCount(used, i) + if i in used then 0 else 1
  {
    var before, after := set f: nat | f < i && f !in used, set f: nat | f < i + 1 && f !in used;
    assert after == if i in used then before else before + {i};
  }

  lemma TakeOne(used: set<nat>, total: nat, f: nat)
    requires f < total && f !in used
    ensures FreeCount(used + {f}, total) == FreeCount(used, total) - 1
  {
    var a := set g: nat | g < total && g !in used;
    assert (set g: nat | g < total && g !in used + {f}) == a - {f};
  }

  lemma GiveOne(used: set<nat>, total: nat, f: nat)
    requires f < total && f in used
    ensures FreeCount(used - {f}, total) == FreeCount(used, total) + 1
  {
    var a := set g: nat | g < total && g !in used;
    assert (set g: nat | g < total && g !in used - {f}) == a + {f};
  }

  // ----- runs of allocations and frees

  /** Used frames, and the frames handed out and not yet returned. */
  datatype Pool = Pool(used: set<nat>, outstanding: set<nat>)

  datatype Request = Alloc | Free(frame: nat)

  /** pmm_alloc_frame returns the address of the frame, and address 0 is NULL:
      frame 0 is marked used but never reaches the caller. */
  function Serve(p: Pool, total: nat, r: Request): Pool {
    match r
    case Alloc =>
      var f := LowestFree(p.used, 0, Limit(total));
      if f == Limit(total) then p
      else Pool(p.used + {f}, if f == 0 then p.outstanding else p.outstanding + {f})
    case Free(f) => Pool(p.used - {f}, p.outstanding - {f})
  }

  /** Whatever is held, serving r turns the used set into `after`, hands out
      `given` and takes back `back`. */
  ghost predicate Serves(used: set<nat>, total: nat, r: Request, after: set<nat>, given: set<nat>, back: set<nat>) {
    forall held: set<nat> :: Serve(Pool(used, held), total, r) == Pool(after, held + given - back)
  }

  lemma MultipleOfFrame(f: nat)
    ensures f * FRAME_SIZE % FRAME_SIZE == 0 && f * FRAME_SIZE / FRAME_SIZE == f
  {
  }

  lemma AllocServes(used: set<nat>, total: nat)
    ensures var f := LowestFree(used, 0, Limit(total));
      if f == Limit(total) then Serves(used, total, Alloc, used, {}, {})
      else Serves(used, total, Alloc, used + {f}, if f == 0 then {} else {f}, {})
  {
  }

  function ServeAll(p: Pool, total: nat, rs: seq<Request>): Pool
    decreases |rs|
  {
    if rs == [] then p else ServeAll(Serve(p, total, rs[0]), total, rs[1..])
  }

  /** Every frame freed was outstanding at that moment. */
  predicate FreesOnlyOutstanding(p: Pool, total: nat, rs: seq<Request>)
    decreases |rs|
  {
    rs == [] ||
    ((rs[0].Free? ==> rs[0].frame in p.outstanding) && FreesOnlyOutstanding(Serve(p, total, rs[0]), total, rs[1..]))
  }

  ghost predicate PoolOk(p: Pool, total: nat) {
    && 0 !in p.outstanding && p.outstanding <= p.used
    && forall f :: f in p.outstanding ==> f < Limit(total)
  }

  /** One request takes frame 0, which no caller ever holds. */
  predicate TakesZero(p: Pool, total: nat, r: Request) {
    r.Alloc? && 0 !in p.used && Limit(total) > 0
  }

  /** Free plus outstanding frames. */
  function Tally(p: Pool, total: nat): int {
    FreeCount(p.used, total) + |p.outstanding|
  }

  lemma AllocTally(p: Pool, total: nat)
    requires PoolOk(p, total)
    ensures var q, lost := Serve(p, total, Alloc), TakesZero(p, total, Alloc);
      && Tally(q, total) == Tally(p, total) - (if lost then 1 else 0)
      && (q != p && !lost ==> exists f :: f !in p.outstanding && q.outstanding == p.outstanding + {f})
  {
    var f := LowestFree(p.used, 0, Limit(total));
    if f < Limit(total) {
      TakeOne(p.used, total, f);
      if f != 0 { assert Serve(p, total, Alloc).outstanding == p.outstanding + {f}; }
    }
  }

  lemma FreeTally(p: Pool, total: nat, f: nat)
    requires PoolOk(p, total) && f in p.outstanding
    ensures Tally(Serve(p, total, Free(f)), total) == Tally(p, total)
  {
    GiveOne(p.used, total, f);
  }

  lemma ServeKeepsPool(p: Pool, total: nat, r: Request)
    requires PoolOk(p, total) && (r.Free? ==> r.frame in p.outstanding)
    ensures var q, lost := Serve(p, total, r), TakesZero(p, total, r);
      && PoolOk(q, total) && q.used - q.outstanding == p.used - p.outstanding + (if lost then {0} else {})
      && (0 in q.used <==> 0 in p.used || lost)
  {
  }

  lemma ServeConserves(p: Pool, total: nat, r: Request)
    requires PoolOk(p, total) && (r.Free? ==> r.frame in p.outstanding)
    ensures var q, lost := Serve(p, total, r), TakesZero(p, total, r);
      && PoolOk(q, total) && q.used - q.outstanding == p.used - p.outstanding + (if lost then {0} else {})
      && Tally(q, total) == Tally(p, total) - (if lost then 1 else 0)
      && (0 in q.used <==> 0 in p.used || lost)
  {
    ServeKeepsPool(p, total, r);
    match r
    case Alloc => AllocTally(p, total);
    case Free(f) => FreeTally(p, total, f);
  }

  /** For a single allocation the condition is that frame 0 is in use or no frame
      can be handed out. */
  lemma AllocConservesUnlessZero(p: Pool, total: nat)
    requires p.outstanding <= p.used
    ensures var q := Serve(p, total, Alloc);
      Tally(q, total) == Tally(p, total)
      <==> 0 in p.used || Limit(total) == 0
  {
    var f := LowestFree(p.used, 0, Limit(total));
    if f < Limit(total) {
      TakeOne(p.used, total, f);
      if f != 0 { assert |p.outstanding + {f}| == |p.outstanding| + 1; }
    }
  }

  predicate AnyAlloc(rs: seq<Request>) {
    exists i :: 0 <= i < |rs| && rs[i].Alloc?
  }

  /** The run takes frame 0 at some point. */
  predicate LosesZero(p: Pool, total: nat, rs: seq<Request>) {
    0 !in p.used && Limit(total) > 0 && AnyAlloc(rs)
  }

  lemma LosesZeroStep(p: Pool, total: nat, rs: seq<Request>)
    requires rs != [] && PoolOk(p, total) && (rs[0].Free? ==> rs[0].frame in p.outstanding)
    ensures var q := Serve(p, total, rs[0]);
      && LosesZero(p, total, rs) == (TakesZero(p, total, rs[0]) || LosesZero(q, total, rs[1..]))
      && !(TakesZero(p, total, rs[0]) && LosesZero(q, total, rs[1..]))
  {
    ServeConserves(p, total, rs[0]);
    assert AnyAlloc(rs) <==> rs[0].Alloc? || AnyAlloc(rs[1..]) by {
      if i :| 0 <= i < |rs[1..]| && rs[1..][i].Alloc? { assert rs[i + 1].Alloc?; }
      if i :| 0 < i < |rs| && rs[i].Alloc? { assert rs[1..][i - 1].Alloc?; }
    }
  }

  lemma {:induction false} RunTally(p: Pool, total: nat, rs: seq<Request>)
    requires PoolOk(p, total) && FreesOnlyOutstanding(p, total, rs)
    ensures var q, lost := ServeAll(p, total, rs), LosesZero(p, total, rs);
      && PoolOk(q, total) && q.used - q.outstanding == p.used - p.outstanding + (if lost then {0} else {})
      && Tally(q, total) == Tally(p, total) - (if lost then 1 else 0)
    decreases |rs|
  {
    if rs != [] {
      ServeConserves(p, total, rs[0]);
      LosesZeroStep(p, total, rs);
      RunTally(Serve(p, total, rs[0]), total, rs[1..]);
    }
  }

  /** Over every run that frees only what is outstanding, free frames plus
      outstanding frames is constant exactly when frame 0 is in use at the start,
      or no frame can be handed out, or nothing is allocated; otherwise exactly
      frame 0 is lost. The frames in use but not outstanding stay so. */
  lemma RunConserves(p: Pool, total: nat, rs: seq<Request>)
    requires PoolOk(p, total) && FreesOnlyOutstanding(p, total, rs)
    ensures var q := ServeAll(p, total, rs);
      && (Tally(q, total) == Tally(p, total) <==> 0 in p.used || Limit(total) == 0 || !AnyAlloc(rs))
      && (Tally(q, total) == Tally(p, total) ==> q.used - q.outstanding == p.used - p.outstanding)
      && (Tally(q, total) != Tally(p, total) ==>
           Tally(q, total) == Tally(p, total) - 1 && q.used - q.outstanding == p.used - p.outstanding + {0})
      && PoolOk(q, total)
  {
    RunTally(p, total, rs);
  }
}
