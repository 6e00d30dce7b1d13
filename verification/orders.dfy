/** The orderings pandas uses when it sorts column values. */
module Orders {

  /** `le` is a total order: any two values compare, and the order is antisymmetric and transitive. */
  ghost predicate IsTotalOrder<T(!new)>(le: (T, T) -> bool) {
    && (forall a, b :: le(a, b) || le(b, a))
    && (forall a, b :: le(a, b) && le(b, a) ==> a == b)
    && (forall a, b, c :: le(a, b) && le(b, c) ==> le(a, c))
  }

  /** Python's `<=` on `str`: lexicographic on code points, a proper prefix first. */
  predicate StrLe(a: string, b: string) {
    if a == [] then true
    else if b == [] then false
    else if a[0] != b[0] then a[0] < b[0]
    else StrLe(a[1..], b[1..])
  }

  /** Python's `<=` on `int`. */
  predicate IntLe(a: int, b: int) {
    a <= b
  }

  /** Python's `<=` on a pair of strings: by the first component, then by the second. */
  predicate PairLe(p: (string, string), q: (string, string)) {
    if p.0 != q.0 then StrLe(p.0, q.0) else StrLe(p.1, q.1)
  }

  lemma {:induction false} StrLeTotal(a: string, b: string)
    ensures StrLe(a, b) || StrLe(b, a)
  {
    if a != [] && b != [] && a[0] == b[0] {
      StrLeTotal(a[1..], b[1..]);
    }
  }

  lemma {:induction false} StrLeAntisymmetric(a: string, b: string)
    requires StrLe(a, b) && StrLe(b, a)
    ensures a == b
  {
    if a != [] && b != [] {
      StrLeAntisymmetric(a[1..], b[1..]);
      assert a == [a[0]] + a[1..] && b == [b[0]] + b[1..];
    }
  }

  lemma {:induction false} StrLeTransitive(a: string, b: string, c: string)
    requires StrLe(a, b) && StrLe(b, c)
    ensures StrLe(a, c)
  {
    if a != [] && b != [] && c != [] && a[0] == b[0] && b[0] == c[0] {
      StrLeTransitive(a[1..], b[1..], c[1..]);
    }
  }

  lemma StrLeIsTotalOrder()
    ensures IsTotalOrder(StrLe)
  {
    forall a, b ensures StrLe(a, b) || StrLe(b, a) {
      StrLeTotal(a, b);
    }
    forall a, b | StrLe(a, b) && StrLe(b, a) ensures a == b {
      StrLeAntisymmetric(a, b);
    }
    forall a, b, c | StrLe(a, b) && StrLe(b, c) ensures StrLe(a, c) {
      StrLeTransitive(a, b, c);
    }
  }

  lemma IntLeIsTotalOrder()
    ensures IsTotalOrder(IntLe)
  {
  }

  lemma PairLeIsTotalOrder()
    ensures IsTotalOrder(PairLe)
  {
    StrLeIsTotalOrder();
  }
}
