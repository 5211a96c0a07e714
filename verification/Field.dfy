/** Fields, as a value that carries its operations. */
module Field {

  datatype Field<!F(==)> = Field(zero: F, one: F, add: (F, F) -> F, neg: F -> F, mul: (F, F) -> F, inv: F -> F)

  ghost predicate Laws<F>(k: Field<F>, a: F, b: F, c: F) {
    && k.add(k.add(a, b), c) == k.add(a, k.add(b, c))
    && k.add(a, b) == k.add(b, a)
    && k.add(a, k.zero) == a
    && k.add(a, k.neg(a)) == k.zero
    && k.mul(k.mul(a, b), c) == k.mul(a, k.mul(b, c))
    && k.mul(a, b) == k.mul(b, a)
    && k.mul(a, k.one) == a
    && k.mul(a, k.add(b, c)) == k.add(k.mul(a, b), k.mul(a, c))
    && (a != k.zero ==> k.mul(a, k.inv(a)) == k.one)
  }

  ghost predicate IsField<F(!new)>(k: Field<F>) {
    k.zero != k.one && forall a, b, c {:trigger Laws(k, a, b, c)} :: Laws(k, a, b, c)
  }
}
