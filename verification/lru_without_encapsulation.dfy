/** The driver traces of the generic recency cache (`fruits` and `numbers`). */
module LruWithoutEncapsulation {
  import opened CacheTypes
  import opened Lru

  /** `fruits`: capacity 2; `get(1)` is "Apple", `put(3)` evicts 2, `put(4)`
      evicts 1, then 1 is absent and 3 and 4 answer "Cherry" and "Date". */
  lemma FruitsTrace()
    ensures New<int, string>(2) == Success(Empty(2))
    ensures
      var c2 := Put(Put(Empty(2), 1, "Apple"), 2, "Banana");
      var g1 := Get(c2, 1);
      var c4 := Put(g1.1, 3, "Cherry");
      var g2 := Get(c4, 2);
      var c6 := Put(g2.1, 4, "Date");
      var g3 := Get(c6, 1);
      var g4 := Get(g3.1, 3);
      var g5 := Get(g4.1, 4);
      [g1.0, g2.0, g3.0, g4.0, g5.0] == [Some("Apple"), None, None, Some("Cherry"), Some("Date")]
  {
    CapacityTwoScenario(1, 2, 3, 4, "Apple", "Banana", "Cherry", "Date");
  }

  /** `numbers`: the same scenario with `Integer` values; `get` answers 1,
      not-found, not-found, 3, 4. */
  lemma NumbersTrace()
    ensures
      var c2 := Put(Put(Empty<int, int>(2), 1, 1), 2, 2);
      var g1 := Get(c2, 1);
      var c4 := Put(g1.1, 3, 3);
      var g2 := Get(c4, 2);
      var c6 := Put(g2.1, 4, 4);
      var g3 := Get(c6, 1);
      var g4 := Get(g3.1, 3);
      var g5 := Get(g4.1, 4);
      [g1.0, g2.0, g3.0, g4.0, g5.0] == [Some(1), None, None, Some(3), Some(4)]
  {
    CapacityTwoScenario(1, 2, 3, 4, 1, 2, 3, 4);
  }
}
