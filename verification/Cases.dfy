/** The rotation of cases and configurations over blocks. */
module Cases {
  import opened Prelude

  datatype Turn<C, K> = Turn(block: nat, order: nat, case_: C, config: K)

  /** Where a turn stands: in which block, for the how-manieth case, at which ordinal. */
  datatype Place = Place(block: nat, slot: nat, order: nat)

  lemma DistinctJoin<T>(a: seq<T>, b: seq<T>)
    requires Distinct(a) && Distinct(b) && forall x :: x in a ==> x !in b
    ensures Distinct(a + b)
    ensures forall x :: x in a + b <==> x in a || x in b
  {
    var s := a + b;
    forall j, k | 0 <= j < k < |s| ensures s[j] != s[k] {
      if j < |a| <= k {
        assert a[j] in a && b[k - |a|] in b;
      } else if |a| <= j {
        assert b[j - |a|] != b[k - |a|];
      }
    }
  }

  /** The list turned left by `offset`. */
  function Rotate<T>(s: seq<T>, offset: nat): (r: seq<T>)
    requires offset <= |s|
    ensures |r| == |s|
  {
    s[offset..] + s[..offset]
  }

  /** Rotation as a step around a circle of `n` positions. */
  function Around(start: nat, step: nat, n: nat): (i: nat)
    requires n > 0
    ensures i < n
  {
    (start + step) % n
  }

  /** The one step below `n` that leads from `start` to position `i`. */
  function StepTo(start: nat, i: nat, n: nat): (step: nat)
    requires i < n
    ensures step < n
  {
    (i - start) % n
  }

  lemma MultipleIsFar(d: int, n: nat)
    ensures d >= 1 ==> d * n >= n
    ensures d <= -1 ==> d * n <= -(n as int)
  {
    if d >= 1 { assert d * n == n + (d - 1) * n; }
    if d <= -1 { assert d * n == -(n as int) + (d + 1) * n; }
  }

  lemma ModUnique(x: int, q: int, r: int, n: nat)
    requires 0 <= r < n && x == q * n + r
    ensures x % n == r
  {
    var d := x / n - q;
    assert x % n == x - (x / n) * n;
    assert d * n == r - x % n by {
      assert (x / n - q) * n == (x / n) * n - q * n;
    }
    MultipleIsFar(d, n);
  }

  lemma RotateAt<T>(s: seq<T>, start: nat, step: nat)
    requires step < |s|
    ensures Rotate(s, start % |s|)[step] == s[Around(start, step, |s|)]
  {
    var n := |s|;
    var offset := start % n;
    var q := start / n;
    if offset + step < n {
      ModUnique(start + step, q, offset + step, n);
    } else {
      assert (q + 1) * n == q * n + n;
      ModUnique(start + step, q + 1, offset + step - n, n);
    }
  }

  /** Exactly one step below `n` reaches a position. */
  lemma OneStep(start: nat, step: nat, i: nat, n: nat)
    requires step < n && i < n
    ensures Around(start, step, n) == i <==> step == StepTo(start, i, n)
  {
    var back := (i - start) % n;
    var q := (i - start) / n;
    assert start + back == (-q) * n + i by { assert (-q) * n == -(q * n); }
    ModUnique(start + back, -q, i, n);
    if Around(start, step, n) == i {
      var p := (start + step) / n;
      assert i - start == (-p) * n + step by { assert (-p) * n == -(p * n); }
      ModUnique(i - start, -p, step, n);
    }
  }

  /** The places of a block in the order in which they are yielded, up to the given slot. */
  ghost function SlotPlaces(block: nat, slot: nat, m: nat): (places: seq<Place>)
    ensures |places| == m
  {
    seq(m, order requires 0 <= order < m => Place(block, slot, order))
  }

  ghost function BlockPlaces(block: nat, slots: nat, m: nat): seq<Place> {
    if slots == 0 then [] else BlockPlaces(block, slots - 1, m) + SlotPlaces(block, slots - 1, m)
  }

  ghost function AllPlaces(blocks: nat, n: nat, m: nat): seq<Place> {
    if blocks == 0 then [] else AllPlaces(blocks - 1, n, m) + BlockPlaces(blocks - 1, n, m)
  }

  lemma {:induction false} BlockPlacesOnce(block: nat, slots: nat, m: nat)
    ensures Distinct(BlockPlaces(block, slots, m))
    ensures forall p :: p in BlockPlaces(block, slots, m) <==> p.block == block && p.slot < slots && p.order < m
  {
    if slots > 0 {
      BlockPlacesOnce(block, slots - 1, m);
      var line := SlotPlaces(block, slots - 1, m);
      forall p ensures p in line <==> p.block == block && p.slot == slots - 1 && p.order < m {
        if p.block == block && p.slot == slots - 1 && p.order < m {
          assert line[p.order] == p;
        }
      }
    }
  }

  lemma {:induction false} AllPlacesOnce(blocks: nat, n: nat, m: nat)
    ensures Distinct(AllPlaces(blocks, n, m))
    ensures forall p :: p in AllPlaces(blocks, n, m) <==> p.block < blocks && p.slot < n && p.order < m
  {
    if blocks > 0 {
      AllPlacesOnce(blocks - 1, n, m);
      BlockPlacesOnce(blocks - 1, n, m);
      DistinctJoin(AllPlaces(blocks - 1, n, m), BlockPlaces(blocks - 1, n, m));
    }
  }

  /** The case and the configuration a place asks for, as positions in the shuffled lists. */
  function CaseAt(p: Place, n: nat): (c: nat)
    requires n > 0
    ensures c < n
  {
    Around(p.block, p.slot, n)
  }

  function ConfigAt(p: Place, m: nat): (k: nat)
    requires m > 0
    ensures k < m
  {
    Around(p.block + p.slot, p.order, m)
  }

  ghost predicate Realizes<C, K>(turns: seq<Turn<C, K>>, places: seq<Place>, shuffled: seq<C>, configs: seq<K>) {
    && |turns| == |places|
    && (turns != [] ==> shuffled != [] && configs != [])
    && forall i :: 0 <= i < |turns| ==> TurnAt(turns[i], places[i], shuffled, configs)
  }

  ghost predicate TurnAt<C, K>(turn: Turn<C, K>, p: Place, shuffled: seq<C>, configs: seq<K>)
    requires shuffled != [] && configs != []
  {
    turn == Turn(p.block, p.order, shuffled[CaseAt(p, |shuffled|)], configs[ConfigAt(p, |configs|)])
  }

  lemma RealizesJoin<C, K>(a: seq<Turn<C, K>>, p: seq<Place>, b: seq<Turn<C, K>>, q: seq<Place>,
                           shuffled: seq<C>, configs: seq<K>)
    requires Realizes(a, p, shuffled, configs) && Realizes(b, q, shuffled, configs)
    ensures Realizes(a + b, p + q, shuffled, configs)
  {}

  /** The innermost loop: one case under every configuration, starting at `offset`. */
  method RunCase<C, K>(block: nat, slot: nat, shuffled: seq<C>, configs: seq<K>)
    returns (turns: seq<Turn<C, K>>)
    requires slot < |shuffled| && configs != []
    ensures Realizes(turns, SlotPlaces(block, slot, |configs|), shuffled, configs)
  {
    var ordered := Rotate(shuffled, block % |shuffled|);
    RotateAt(shuffled, block, slot);
    var offset := (block + slot) % |configs|;
    var line := Rotate(configs, offset);
    turns := [];
    for order := 0 to |line|
      invariant |turns| == order
      invariant forall i :: 0 <= i < order ==> TurnAt(turns[i], Place(block, slot, i), shuffled, configs)
    {
      RotateAt(configs, block + slot, order);
      turns := turns + [Turn(block, order, ordered[slot], line[order])];
    }
  }

  /** One block: every case in its rotated order. */
  method RunBlock<C, K>(block: nat, shuffled: seq<C>, configs: seq<K>)
    returns (result: Result<seq<Turn<C, K>>, string>)
    ensures result.Err? <==> shuffled != [] && configs == []
    ensures result.Ok? ==> Realizes(result.value, BlockPlaces(block, |shuffled|, |configs|), shuffled, configs)
  {
    var turns: seq<Turn<C, K>> := [];
    for slot := 0 to |shuffled|
      invariant slot > 0 ==> configs != []
      invariant Realizes(turns, BlockPlaces(block, slot, |configs|), shuffled, configs)
    {
      if configs == [] {
        return Err("integer modulo by zero");
      }
      var line := RunCase(block, slot, shuffled, configs);
      RealizesJoin(turns, BlockPlaces(block, slot, |configs|), line, SlotPlaces(block, slot, |configs|), shuffled, configs);
      turns := turns + line;
    }
    return Ok(turns);
  }

  /** `schedule`, given the two lists as the shuffles left them. */
  method Schedule<C, K>(shuffled: seq<C>, configs: seq<K>, blocks: nat)
    returns (result: Result<seq<Turn<C, K>>, string>)
    ensures result.Err? <==> blocks > 0 && shuffled != [] && configs == []
    ensures result.Ok? ==> Realizes(result.value, AllPlaces(blocks, |shuffled|, |configs|), shuffled, configs)
  {
    var turns: seq<Turn<C, K>> := [];
    for block := 0 to blocks
      invariant block > 0 && shuffled != [] ==> configs != []
      invariant Realizes(turns, AllPlaces(block, |shuffled|, |configs|), shuffled, configs)
    {
      result := RunBlock(block, shuffled, configs);
      if result.Err? {
        return;
      }
      RealizesJoin(turns, AllPlaces(block, |shuffled|, |configs|),
                   result.value, BlockPlaces(block, |shuffled|, |configs|), shuffled, configs);
      turns := turns + result.value;
    }
    return Ok(turns);
  }

  /** The turn that gives a case a configuration in a block: it exists and is the only one. */
  function PlaceOf(block: nat, c: nat, k: nat, n: nat, m: nat): (p: Place)
    requires c < n && k < m
    ensures p.block == block && p.slot < n && p.order < m
  {
    var slot := StepTo(block, c, n);
    Place(block, slot, StepTo(block + slot, k, m))
  }

  predicate Asks(p: Place, block: nat, c: nat, k: nat, n: nat, m: nat)
    requires n > 0 && m > 0
  {
    p.block == block && CaseAt(p, n) == c && ConfigAt(p, m) == k
  }

  /** Every block runs every case under every configuration exactly once. */
  lemma TripleOnce(blocks: nat, n: nat, m: nat, block: nat, c: nat, k: nat)
    requires block < blocks && c < n && k < m
    ensures PlaceOf(block, c, k, n, m) in AllPlaces(blocks, n, m) && Asks(PlaceOf(block, c, k, n, m), block, c, k, n, m)
    ensures forall i, j |
              && 0 <= i < |AllPlaces(blocks, n, m)| && 0 <= j < |AllPlaces(blocks, n, m)|
              && Asks(AllPlaces(blocks, n, m)[i], block, c, k, n, m)
              && Asks(AllPlaces(blocks, n, m)[j], block, c, k, n, m)
              :: i == j
  {
    var places := AllPlaces(blocks, n, m);
    AllPlacesOnce(blocks, n, m);
    var p := PlaceOf(block, c, k, n, m);
    assert p in places;
    OneStep(block, p.slot, c, n);
    OneStep(block + p.slot, p.order, k, m);
    forall i | 0 <= i < |places| && Asks(places[i], block, c, k, n, m) ensures places[i] == p {
      assert places[i] in places;
      OneStep(block, places[i].slot, c, n);
      OneStep(block + p.slot, places[i].order, k, m);
    }
  }

  /** Over as many consecutive blocks as there are configurations, a dispatch
      slot sees each configuration at each ordinal in exactly one block. */
  lemma SlotSeesLatinSquare(start: nat, slot: nat, order: nat, k: nat, m: nat)
    requires order < m && k < m
    ensures exists block: nat :: start <= block < start + m && ConfigAt(Place(block, slot, order), m) == k
    ensures forall b: nat, b': nat |
              && start <= b < start + m && start <= b' < start + m
              && ConfigAt(Place(b, slot, order), m) == k && ConfigAt(Place(b', slot, order), m) == k
              :: b == b'
  {
    var from := start + slot + order;
    forall b: nat | start <= b < start + m
      ensures ConfigAt(Place(b, slot, order), m) == k <==> b == start + StepTo(from, k, m)
    {
      OneStep(from, b - start, k, m);
      assert b + slot + order == from + (b - start);
    }
    assert ConfigAt(Place(start + StepTo(from, k, m), slot, order), m) == k;
  }

  /** The ordinal at which a case meets a configuration in a block. */
  function OrdinalOf(block: nat, c: nat, k: nat, n: nat, m: nat): (order: nat)
    requires c < n && k < m
    ensures order < m
  {
    PlaceOf(block, c, k, n, m).order
  }

  /** In the given block and the following one the case meets every configuration at the same ordinal,
      unless the first of the two dispatches it first. */
  lemma NextBlockRepeats(block: nat, c: nat, k: nat, n: nat, m: nat)
    requires c < n && k < m && StepTo(block, c, n) > 0
    ensures OrdinalOf(block + 1, c, k, n, m) == OrdinalOf(block, c, k, n, m)
  {
    var slot := StepTo(block, c, n);
    OneStep(block, slot, c, n);
    OneStep(block + 1, slot - 1, c, n);
    assert block + 1 + (slot - 1) == block + slot;
  }

  /** Each configuration occupies each ordinal for the case, within the given blocks. */
  ghost predicate CycleIsFair(start: nat, c: nat, n: nat, m: nat)
    requires c < n
  {
    forall k, order | 0 <= k < m && 0 <= order < m :: Meets(start, c, k, order, n, m)
  }

  ghost predicate Meets(start: nat, c: nat, k: nat, order: nat, n: nat, m: nat)
    requires c < n && k < m
  {
    exists block: nat :: start <= block < start + m && OrdinalOf(block, c, k, n, m) == order
  }

  /** The ordinals met with one configuration in `count` blocks from `start`. */
  ghost function Met(start: nat, count: nat, c: nat, k: nat, n: nat, m: nat): (orders: set<nat>)
    requires c < n && k < m
    ensures |orders| <= count
    ensures forall b: nat :: start <= b < start + count ==> OrdinalOf(b, c, k, n, m) in orders
  {
    if count == 0 then {}
    else Met(start, count - 1, c, k, n, m) + {OrdinalOf(start + count - 1, c, k, n, m)}
  }

  lemma {:induction false} CardinalityBelow(s: set<nat>, m: nat)
    requires forall i: nat :: i < m ==> i in s
    ensures |s| >= m
  {
    if m > 0 {
      CardinalityBelow(s - {m - 1}, m - 1);
    }
  }

  /** Two blocks with the same ordinals leave too few blocks for all the ordinals. */
  lemma RepeatIsUnfair(start: nat, c: nat, n: nat, m: nat)
    requires c < n && m > 1 && StepTo(start, c, n) > 0
    ensures !CycleIsFair(start, c, n, m)
  {
    if CycleIsFair(start, c, n, m) {
      NextBlockRepeats(start, c, 0, n, m);
      var met := Met(start + 1, m - 1, c, 0, n, m);
      forall order: nat | order < m ensures order in met {
        assert Meets(start, c, 0, order, n, m);
      }
      CardinalityBelow(met, m);
    }
  }

  /** A complete cycle of blocks, one for each configuration, is fair to every
      case exactly when there is only one case or only one configuration. */
  lemma EveryCaseIsFairOnlyIfTrivial(start: nat, n: nat, m: nat)
    requires n > 0 && m > 0
    ensures (forall c: nat | c < n :: CycleIsFair(start, c, n, m)) <==> n == 1 || m == 1
  {
    if n > 1 && m > 1 {
      var c := Around(start, 1, n);
      OneStep(start, 1, c, n);
      RepeatIsUnfair(start, c, n, m);
    } else {
      forall c: nat, k, order | c < n && 0 <= k < m && 0 <= order < m ensures Meets(start, c, k, order, n, m) {
        if m == 1 {
          assert OrdinalOf(start, c, k, n, m) == order;
        } else {
          var block := start + StepTo(start + order, k, m);
          OneStep(start + order, block - start, k, m);
          OneStep(block, order, k, m);
          assert OrdinalOf(block, c, k, n, m) == order;
        }
      }
    }
  }

  /** Between wraps the slot of a case falls as the block rises. */
  lemma BlockAndSlot(block: nat, c: nat, n: nat)
    requires c < n
    ensures exists t: int :: block + StepTo(block, c, n) == c + t * n
  {
    var q := (c - block) / n;
    assert block + StepTo(block, c, n) == c + (-q) * n by { assert (-q) * n == -(q * n); }
  }

  lemma ShiftByMultiples(x: int, t: int, n: nat, m: nat)
    requires m > 0 && n % m == 0
    ensures (x - t * n) % m == x % m
  {
    var q, e := n / m, x / m;
    assert n == q * m;
    assert t * n == (t * q) * m;
    assert (e - t * q) * m == e * m - (t * q) * m;
    ModUnique(x - t * n, e - t * q, x % m, m);
  }

  lemma EqualAfterShift(x: int, n: nat, m: nat)
    requires m > 0 && (x - n) % m == x % m
    ensures n % m == 0
  {
    var p, q := x / m, (x - n) / m;
    assert (p - q) * m == p * m - q * m;
    ModUnique(n, p - q, 0, m);
  }

  ghost predicate SameOrdinal(b: nat, b': nat, c: nat, k: nat, n: nat, m: nat)
    requires c < n && k < m
  {
    OrdinalOf(b, c, k, n, m) == OrdinalOf(b', c, k, n, m)
  }

  lemma OrdinalWhenDivisible(b: nat, c: nat, k: nat, n: nat, m: nat)
    requires c < n && k < m && n % m == 0
    ensures OrdinalOf(b, c, k, n, m) == (k - c) % m
  {
    BlockAndSlot(b, c, n);
    var t: int :| b + StepTo(b, c, n) == c + t * n;
    ShiftByMultiples(k - c, t, n, m);
    assert k - (c + t * n) == (k - c) - t * n;
  }

  /** A case meets a configuration at the same ordinal in every block exactly
      when the number of configurations divides the number of cases. */
  lemma OrdinalIsConstant(c: nat, k: nat, n: nat, m: nat)
    requires c < n && k < m
    ensures (forall b: nat, b': nat :: SameOrdinal(b, b', c, k, n, m)) <==> n % m == 0
  {
    if n % m == 0 {
      forall b: nat, b': nat ensures SameOrdinal(b, b', c, k, n, m) {
        OrdinalWhenDivisible(b, c, k, n, m);
        OrdinalWhenDivisible(b', c, k, n, m);
      }
    } else if SameOrdinal(c, c + 1, c, k, n, m) {
      ModUnique(-1, -1, n - 1, n);
      assert StepTo(c, c, n) == 0 && StepTo(c + 1, c, n) == n - 1;
      EqualAfterShift(k - c, n, m);
    }
  }
}
