/**
 * Worked queries over the five-element span `1, 2, 3, 4, 5`, with the
 * answers the integration tests expect, derived from the operator meanings
 * the generated wrappers and terminals are proved to implement.
 */
module Scenarios {
  import opened Sequences

  const Five: seq<int> := [1, 2, 3, 4, 5]

  function Square(x: int): int { x * x }
  function Odd(x: int): bool { x % 2 == 1 }

  lemma SquaresOfFive()
    ensures Map(Square, Five) == [1, 4, 9, 16, 25]
  {
    assert Five[..4] == [1, 2, 3, 4];
    assert Five[..4][..3] == [1, 2, 3];
    assert Five[..4][..3][..2] == [1, 2];
    assert Five[..4][..3][..2][..1] == [1];
  }

  lemma OddOfFive()
    ensures Filter(Odd, Five) == [1, 3, 5]
  {
    assert Five[..0] == [];
    FilterStep(Odd, Five, 0);
    FilterStep(Odd, Five, 1);
    FilterStep(Odd, Five, 2);
    FilterStep(Odd, Five, 3);
    FilterStep(Odd, Five, 4);
    assert Five[..5] == Five;
  }

  /** `span.Select(x => x * x).Where(x => x > 5).ToList()` is `9, 16, 25`. */
  lemma SelectWhere()
    ensures Filter(x => x > 5, Map(Square, Five)) == [9, 16, 25]
  {
    SquaresOfFive();
    var s := [1, 4, 9, 16, 25];
    var big := x => x > 5;
    assert s[..0] == [];
    FilterStep(big, s, 0);
    FilterStep(big, s, 1);
    FilterStep(big, s, 2);
    FilterStep(big, s, 3);
    FilterStep(big, s, 4);
    assert s[..5] == s;
  }

  /** `Take(3)`, `Select(...).Take(3)` and `Take(6)` on the span. */
  lemma Takes()
    ensures Take(Five, 3) == [1, 2, 3]
    ensures Take(Map(Square, Five), 3) == [1, 4, 9]
    ensures Take(Five, 6) == Five
  {
    SquaresOfFive();
  }

  /** `Where(odd).Take(2)` is `1, 3`; `Where(odd).Take(4)` is every odd element. */
  lemma WhereTakes()
    ensures Take(Filter(Odd, Five), 2) == [1, 3]
    ensures Take(Filter(Odd, Five), 4) == [1, 3, 5]
  {
    OddOfFive();
  }

  /** `Skip(2)`, `Select(...).Skip(2)`, `Where(odd).Skip(1)`, and skips past the end. */
  lemma Skips()
    ensures Skip(Five, 2) == [3, 4, 5]
    ensures Skip(Map(Square, Five), 2) == [9, 16, 25]
    ensures Skip(Filter(Odd, Five), 1) == [3, 5]
    ensures Skip(Five, 6) == [] && Skip(Filter(Odd, Five), 4) == []
  {
    SquaresOfFive();
    OddOfFive();
  }

  /** `Where(odd).Count()` is 3, and `Where(x => x > 10).Any()` is false. */
  lemma CountAndAny()
    ensures |Filter(Odd, Five)| == 3
    ensures |Filter(x => x > 10, Five)| == 0
  {
    OddOfFive();
    AnyAfterWhere(x => x > 10, Five);
  }
}
