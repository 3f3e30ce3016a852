/** Small shared vocabulary, and two facts about division. */
module Prelude {

  datatype Option<+T> = None | Some(value: T)

  datatype Result<+T, +E> = Ok(value: T) | Err(error: E)

  type Byte = x: int | 0 <= x < 256

  type Bytes = seq<Byte>

  /** What becomes of one remote call: the request may never arrive, or its reply may never come back. */
  datatype Fate = Replied | ReplyLost | RequestLost

  /** An application node, known by its full name; nodes of one type run the same program. */
  datatype Node = Node(appType: string, id: nat)

  lemma QuotientIs(n: nat, d: nat, q: nat, r: nat)
    requires n == d * q + r && r < d
    ensures n / d == q
  {
    ProductGrows(d, n / d, q);
    ProductGrows(d, q, n / d);
  }

  lemma ProductGrows(d: nat, x: nat, y: nat)
    ensures x < y ==> d * x + d <= d * y
  {
    if x < y {
      var k := y - x - 1;
      assert d * (x + (k + 1)) == d * x + d * (k + 1) == d * x + d * k + d;
    }
  }
}
