/** Reed-Solomon over the field of 256 elements: shard i holds, byte by byte, the value at i of the
    polynomial through the data bytes at 0, ..., n - 1. It is a lawful erasure code. */
module ReedSolomon {
  import opened Bytes
  import opened ErasureCode
  import opened Field
  import opened GaloisField
  import opened Interpolation

  type Points = seq<(byte, byte)>

  /** The t-th byte of each data shard, at its index. */
  ghost function ColumnPoints(data: seq<Data>, t: nat): (pts: Points)
    requires |data| <= 256 && forall i :: 0 <= i < |data| ==> t < |data[i]|
    ensures |pts| == |data| && forall i :: 0 <= i < |data| ==> pts[i] == (i, data[i][t])
  {
    seq(|data|, i requires 0 <= i < |data| => (i as byte, data[i][t]))
  }

  ghost function ShardAt(f: Field<byte>, data: seq<Data>, i: byte): (s: Data)
    requires 1 <= |data| <= 256 && IsBlock(|data|, data)
    ensures |s| == |data[0]|
    ensures forall t :: 0 <= t < |s| ==> s[t] == Eval(f, Interpolate(f, ColumnPoints(data, t)), i)
  {
    seq(|data[0]|, t requires 0 <= t < |data[0]| => Eval(f, Interpolate(f, ColumnPoints(data, t)), i))
  }

  ghost function Parity(f: Field<byte>, n: nat, k: nat, data: seq<Data>): (p: seq<Data>)
    ensures ValidCounts(n, k) && IsBlock(n, data) ==>
      |p| == k && forall i :: 0 <= i < k ==> p[i] == ShardAt(f, data, n + i)
  {
    if ValidCounts(n, k) && IsBlock(n, data) then
      seq(k, i requires 0 <= i < k => ShardAt(f, data, n + i))
    else []
  }

  /** The present indices below `i`, in order. */
  function PresentList(slots: Slots, i: nat): (s: seq<nat>)
    requires i <= |slots|
    ensures forall j :: 0 <= j < |s| ==> s[j] < i && slots[s[j]].Some?
    ensures forall j, j' :: 0 <= j < j' < |s| ==> s[j] < s[j']
    ensures |s| == |set j: nat | j < i && slots[j].Some?|
  {
    if i == 0 then []
    else
      var before := set j: nat | j < i - 1 && slots[j].Some?;
      assert (set j: nat | j < i && slots[j].Some?) == if slots[i - 1].Some? then before + {i - 1} else before;
      PresentList(slots, i - 1) + (if slots[i - 1].Some? then [i - 1] else [])
  }

  /** The present slots have one common nonzero length. */
  ghost predicate Uniform(slots: Slots, len: nat) {
    len > 0 && forall i :: 0 <= i < |slots| && slots[i].Some? ==> |slots[i].value| == len
  }

  /** The t-th byte of the chosen shards, at their indices. */
  ghost function ChosenPoints(slots: Slots, chosen: seq<nat>, t: nat): (pts: Points)
    requires |slots| <= 256
    requires forall j :: 0 <= j < |chosen| ==>
      chosen[j] < |slots| && slots[chosen[j]].Some? && t < |slots[chosen[j]].value|
    ensures |pts| == |chosen|
    ensures forall j :: 0 <= j < |chosen| ==> pts[j] == (chosen[j], slots[chosen[j]].value[t])
  {
    seq(|chosen|, j requires 0 <= j < |chosen| => (chosen[j] as byte, slots[chosen[j]].value[t]))
  }

  ghost function RebuiltShard(f: Field<byte>, slots: Slots, chosen: seq<nat>, len: nat, i: byte): (s: Data)
    requires |slots| <= 256 && Uniform(slots, len)
    requires forall j :: 0 <= j < |chosen| ==> chosen[j] < |slots| && slots[chosen[j]].Some?
    ensures |s| == len
    ensures forall t :: 0 <= t < len ==> s[t] == Eval(f, Interpolate(f, ChosenPoints(slots, chosen, t)), i)
  {
    seq(len, t requires 0 <= t < len => Eval(f, Interpolate(f, ChosenPoints(slots, chosen, t)), i))
  }

  /** Missing shards are interpolated from the first n present ones. */
  ghost function Rebuild(f: Field<byte>, n: nat, k: nat, slots: Slots): (r: Option<seq<Data>>) {
    var present := PresentList(slots, |slots|);
    if !ValidCounts(n, k) || |slots| != n + k || |present| < n then None
    else
      var chosen := present[..n];
      var len := |slots[chosen[0]].value|;
      if !Uniform(slots, len) then None
      else Some(seq(n + k, i requires 0 <= i < n + k =>
        if slots[i].Some? then slots[i].value else RebuiltShard(f, slots, chosen, len, i)))
  }

  ghost function Code256(): Code {
    var f := Gf256();
    Code((n, k, data) => Parity(f, n, k, data), (n, k, slots) => Rebuild(f, n, k, slots))
  }

  /** Every shard of a codeword, data or parity, is the column polynomial's value at its index. */
  lemma WordAt(f: Field<byte>, n: nat, k: nat, data: seq<Data>, i: nat, t: nat)
    requires IsField(f) && ValidCounts(n, k) && IsBlock(n, data) && i < n + k && t < |data[0]|
    ensures var w := data + Parity(f, n, k, data);
            |w| == n + k && |w[i]| == |data[0]|
            && w[i][t] == Eval(f, Interpolate(f, ColumnPoints(data, t)), i)
  {
    if i < n {
      var pts := ColumnPoints(data, t);
      InterpolateHits(f, pts, i);
    }
  }

  /** Interpolating any n shards of a codeword gives each of its shards. */
  lemma RebuiltIsWord(f: Field<byte>, n: nat, k: nat, data: seq<Data>, slots: Slots, chosen: seq<nat>, i: nat)
    requires IsField(f) && ValidCounts(n, k) && IsBlock(n, data) && i < n + k
    requires SlotsOf(slots, data + Parity(f, n, k, data)) && Uniform(slots, |data[0]|)
    requires |chosen| == n && forall j :: 0 <= j < n ==> chosen[j] < n + k && slots[chosen[j]].Some?
    requires forall j, j' :: 0 <= j < j' < n ==> chosen[j] < chosen[j']
    ensures RebuiltShard(f, slots, chosen, |data[0]|, i) == (data + Parity(f, n, k, data))[i]
  {
    var w := data + Parity(f, n, k, data);
    var s := RebuiltShard(f, slots, chosen, |data[0]|, i);
    forall t | 0 <= t < |data[0]| ensures s[t] == w[i][t] {
      var p := Interpolate(f, ColumnPoints(data, t));
      var pts := ChosenPoints(slots, chosen, t);
      forall j | 0 <= j < n ensures Eval(f, p, pts[j].0) == pts[j].1 {
        WordAt(f, n, k, data, chosen[j], t);
      }
      InterpolateUnique(f, pts, p, i);
      WordAt(f, n, k, data, i, t);
    }
    WordAt(f, n, k, data, i, 0);
  }

  lemma RebuildIsLawful(f: Field<byte>, n: nat, k: nat, data: seq<Data>, slots: Slots)
    requires IsField(f) && ValidCounts(n, k) && IsBlock(n, data)
    requires SlotsOf(slots, data + Parity(f, n, k, data))
    ensures Rebuild(f, n, k, slots) == if |Present(slots)| >= n then Some(data + Parity(f, n, k, data)) else None
  {
    var w := data + Parity(f, n, k, data);
    var present := PresentList(slots, |slots|);
    assert (set j: nat | j < |slots| && slots[j].Some?) == Present(slots);
    if |present| >= n {
      var chosen := present[..n];
      forall i | 0 <= i < n + k ensures |w[i]| == |data[0]| {
        WordAt(f, n, k, data, i, 0);
      }
      assert Uniform(slots, |data[0]|);
      forall i | 0 <= i < n + k ensures RebuiltShard(f, slots, chosen, |data[0]|, i) == w[i] {
        RebuiltIsWord(f, n, k, data, slots, chosen, i);
      }
      assert Rebuild(f, n, k, slots).value == w;
    }
  }

  lemma RebuildKeepsSize(f: Field<byte>, n: nat, k: nat, slots: Slots)
    ensures var w := Rebuild(f, n, k, slots);
            w.Some? ==> forall i, j :: 0 <= i < |slots| && slots[i].Some? && 0 <= j < |w.value| ==>
              |w.value[j]| == |slots[i].value|
  {
    hide RebuiltShard;
  }

  /** The laws the codec relies on hold of a real code, for all shard counts up to 256. */
  lemma ReedSolomonIsLawful()
    ensures Lawful(Code256())
  {
    Gf256IsAField();
    var f, code := Gf256(), Code256();
    forall n: nat, k: nat, data ensures EncodeLaw(code, n, k, data) {
      hide Gf256;
    }
    forall n: nat, k: nat, data, slots ensures RebuildLaw(code, n, k, data, slots) {
      if ValidCounts(n, k) && IsBlock(n, data) && SlotsOf(slots, Codeword(code, n, k, data)) {
        RebuildIsLawful(f, n, k, data, slots);
      }
    }
    forall n: nat, k: nat, slots ensures SizeLaw(code, n, k, slots) {
      hide Rebuild, Gf256;
      RebuildKeepsSize(f, n, k, slots);
    }
  }

  // ----- shards of two blocks -----

  /** Shard 0 of one block and shards 2 to `n` of another: n shards in all, one of them parity. */
  ghost predicate TwoBlocks(f: Field<byte>, n: nat, k: nat, x: seq<Data>, y: seq<Data>, slots: Slots)
    requires ValidCounts(n, k) && IsBlock(n, y) && x != []
  {
    && |slots| == n + k
    && forall i :: 0 <= i < n + k ==>
         slots[i] == if i == 0 then Some(x[0]) else if 2 <= i <= n then Some((y + Parity(f, n, k, y))[i]) else None
  }

  lemma TwoBlocksPresent(f: Field<byte>, n: nat, k: nat, x: seq<Data>, y: seq<Data>, slots: Slots)
    requires ValidCounts(n, k) && n >= 2 && IsBlock(n, y) && x != [] && TwoBlocks(f, n, k, x, y, slots)
    ensures |PresentList(slots, |slots|)| == n
  {
    assert (set j: nat | j < |slots| && slots[j].Some?) == Below(n + 1) - {1};
  }

  lemma {:induction false} PresentListHas(slots: Slots, i: nat, v: nat)
    requires v < i <= |slots| && slots[v].Some?
    ensures v in PresentList(slots, i)
  {
    var before := PresentList(slots, i - 1);
    if v < i - 1 {
      PresentListHas(slots, i - 1, v);
      var j :| 0 <= j < |before| && before[j] == v;
      assert PresentList(slots, i)[j] == v;
    } else {
      assert PresentList(slots, i)[|before|] == v;
    }
  }

  lemma ColumnHits(f: Field<byte>, slots: Slots, t: nat, v: nat)
    requires IsField(f) && |slots| <= 256 && v < |slots| && slots[v].Some?
    requires forall j :: 0 <= j < |slots| && slots[j].Some? ==> t < |slots[j].value|
    ensures Eval(f, Interpolate(f, ChosenPoints(slots, PresentList(slots, |slots|), t)), v) == slots[v].value[t]
  {
    PresentListHas(slots, |slots|, v);
    var chosen := PresentList(slots, |slots|);
    var j :| 0 <= j < |chosen| && chosen[j] == v;
    InterpolateHits(f, ChosenPoints(slots, chosen, t), j);
  }

  /** The polynomials through the present shards and through the second block: in one column. */
  lemma ColumnForth(f: Field<byte>, n: nat, k: nat, x: seq<Data>, y: seq<Data>, slots: Slots, t: nat)
    requires IsField(f) && ValidCounts(n, k) && n >= 2 && IsBlock(n, x) && IsBlock(n, y) && |x[0]| == |y[0]|
    requires TwoBlocks(f, n, k, x, y, slots) && t < |y[0]| && x[0][t] == y[0][t]
    requires Uniform(slots, |y[0]|)
    ensures Eval(f, Interpolate(f, ChosenPoints(slots, PresentList(slots, |slots|), t)), 1) == y[1][t]
  {
    TwoBlocksPresent(f, n, k, x, y, slots);
    var chosen := PresentList(slots, |slots|);
    var pts := ChosenPoints(slots, chosen, t);
    var py := Interpolate(f, ColumnPoints(y, t));
    forall j | 0 <= j < n ensures Eval(f, py, pts[j].0) == pts[j].1 {
      var i := chosen[j];
      WordAt(f, n, k, y, i, t);
      assert slots[i].value[t] == (y + Parity(f, n, k, y))[i][t];
    }
    WordAt(f, n, k, y, 1, t);
    hide Eval, Interpolate, Parity;
    InterpolateUnique(f, pts, py, 1);
  }

  lemma ColumnBack(f: Field<byte>, n: nat, k: nat, x: seq<Data>, y: seq<Data>, slots: Slots, t: nat)
    requires IsField(f) && ValidCounts(n, k) && n >= 2 && IsBlock(n, x) && IsBlock(n, y) && |x[0]| == |y[0]|
    requires TwoBlocks(f, n, k, x, y, slots) && t < |y[0]| && Uniform(slots, |y[0]|)
    requires Eval(f, Interpolate(f, ChosenPoints(slots, PresentList(slots, |slots|), t)), 1) == y[1][t]
    ensures x[0][t] == y[0][t]
  {
    TwoBlocksPresent(f, n, k, x, y, slots);
    var p := Interpolate(f, ChosenPoints(slots, PresentList(slots, |slots|), t));
    var py := Interpolate(f, ColumnPoints(y, t));
    var others: Points := seq(n, i requires 0 <= i < n => ((i + 1) as byte, Eval(f, py, i + 1)));
    forall i | 0 <= i < n ensures Eval(f, p, others[i].0) == others[i].1 {
      WordAt(f, n, k, y, i + 1, t);
      if i > 0 {
        ColumnHits(f, slots, t, i + 1);
      }
    }
    InterpolateUnique(f, others, p, 0);
    InterpolateUnique(f, others, py, 0);
    WordAt(f, n, k, y, 0, t);
    ColumnHits(f, slots, t, 0);
  }

  /** What such a mixture is rebuilt to: shard 1 differs from the second block's exactly where the shards 0 differ. */
  lemma MixtureRebuilds(f: Field<byte>, n: nat, k: nat, x: seq<Data>, y: seq<Data>, slots: Slots)
    requires IsField(f) && ValidCounts(n, k) && n >= 2 && IsBlock(n, x) && IsBlock(n, y) && |x[0]| == |y[0]|
    requires TwoBlocks(f, n, k, x, y, slots)
    ensures var w := Rebuild(f, n, k, slots);
            && w.Some? && |w.value| == n + k && |w.value[1]| == |y[0]|
            && forall t :: 0 <= t < |y[0]| ==> (w.value[1][t] == y[1][t] <==> x[0][t] == y[0][t])
  {
    TwoBlocksPresent(f, n, k, x, y, slots);
    var chosen := PresentList(slots, |slots|);
    assert chosen[..n] == chosen;
    forall i | 0 <= i < n + k ensures |(y + Parity(f, n, k, y))[i]| == |y[0]| {
      WordAt(f, n, k, y, i, 0);
    }
    assert Uniform(slots, |y[0]|);
    assert |slots[chosen[0]].value| == |y[0]|;
    hide Parity;
    var w := Rebuild(f, n, k, slots).value;
    assert w[1] == RebuiltShard(f, slots, chosen, |y[0]|, 1);
    forall t | 0 <= t < |y[0]| ensures w[1][t] == y[1][t] <==> x[0][t] == y[0][t] {
      if x[0][t] == y[0][t] {
        ColumnForth(f, n, k, x, y, slots, t);
      }
      if w[1][t] == y[1][t] {
        ColumnBack(f, n, k, x, y, slots, t);
      }
    }
  }
}
