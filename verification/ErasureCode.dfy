/** The erasure-code library as the codec sees it, and the laws it must obey. */
module ErasureCode {
  import opened Bytes

  type Slots = seq<Option<Data>>

  /** `parity(n, k, data)` is the k parity shards; `rebuild(n, k, slots)` is every shard, or `None`. */
  datatype Code = Code(parity: (nat, nat, seq<Data>) -> seq<Data>, rebuild: (nat, nat, Slots) -> Option<seq<Data>>)

  /** The shard counts the library accepts: some data, some parity, at most 256 together. */
  predicate ValidCounts(n: nat, k: nat) {
    n >= 1 && k >= 1 && n + k <= 256
  }

  /** `n` data shards of one common nonzero length. */
  ghost predicate IsBlock(n: nat, data: seq<Data>) {
    |data| == n && n >= 1 && |data[0]| > 0 && forall i :: 0 <= i < n ==> |data[i]| == |data[0]|
  }

  function Codeword(code: Code, n: nat, k: nat, data: seq<Data>): seq<Data> {
    data + code.parity(n, k, data)
  }

  /** The indices of the shards that are there. */
  function Present(slots: Slots): (s: set<nat>) {
    set i: nat | i < |slots| && slots[i].Some?
  }

  ghost predicate SlotsOf(slots: Slots, word: seq<Data>) {
    |slots| == |word| && forall i :: 0 <= i < |slots| && slots[i].Some? ==> slots[i].value == word[i]
  }

  ghost predicate EncodeLaw(code: Code, n: nat, k: nat, data: seq<Data>) {
    ValidCounts(n, k) && IsBlock(n, data) ==>
      |code.parity(n, k, data)| == k &&
      forall i :: 0 <= i < k ==> |code.parity(n, k, data)[i]| == |data[0]|
  }

  /** Any n shards of a codeword give all of it back; fewer give nothing. */
  ghost predicate RebuildLaw(code: Code, n: nat, k: nat, data: seq<Data>, slots: Slots) {
    ValidCounts(n, k) && IsBlock(n, data) && SlotsOf(slots, Codeword(code, n, k, data)) ==>
      code.rebuild(n, k, slots) ==
        if |Present(slots)| >= n then Some(Codeword(code, n, k, data)) else None
  }

  /** All rebuilt shards have the one length that the present shards have. */
  ghost predicate SizeLaw(code: Code, n: nat, k: nat, slots: Slots) {
    var w := code.rebuild(n, k, slots);
    w.Some? ==> forall i, j :: 0 <= i < |slots| && slots[i].Some? && 0 <= j < |w.value| ==>
      |w.value[j]| == |slots[i].value|
  }

  ghost predicate Lawful(code: Code) {
    && (forall n: nat, k: nat, data {:trigger EncodeLaw(code, n, k, data)} :: EncodeLaw(code, n, k, data))
    && (forall n: nat, k: nat, data, slots {:trigger RebuildLaw(code, n, k, data, slots)} ::
          RebuildLaw(code, n, k, data, slots))
    && (forall n: nat, k: nat, slots {:trigger SizeLaw(code, n, k, slots)} :: SizeLaw(code, n, k, slots))
  }

  lemma CodewordShape(code: Code, n: nat, k: nat, data: seq<Data>)
    requires Lawful(code) && ValidCounts(n, k) && IsBlock(n, data)
    ensures var w := Codeword(code, n, k, data);
            |w| == n + k && w[..n] == data && forall i :: 0 <= i < n + k ==> |w[i]| == |data[0]|
  {
    assert EncodeLaw(code, n, k, data);
  }
}
