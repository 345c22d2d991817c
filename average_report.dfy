/**
 * `processAverageTagLength`: for every tag entry `[count, chars, words]`,
 * the average paragraph length in characters and in words, each being
 * Python's `round` (ties to the even neighbour) of `total / max(count, 1)`.
 * The quotient is exact here: the rounding is done on integers.
 */
module AverageReport {
  import opened Extraction

  /** `round(a / m)` with ties going to the even neighbour. */
  function RoundHalfEven(a: nat, m: nat): (r: nat)
    requires m >= 1
    // r is a nearest integer to a / m ...
    ensures -(m as int) <= 2 * (a - m * r) <= m
    // ... and an exact tie is resolved to the even one
    ensures 2 * (a - m * r) == m || 2 * (a - m * r) == -(m as int) ==> r % 2 == 0
  {
    var q := a / m;
    var rem := a % m;
    assert a == m * q + rem;
    assert m * (q + 1) == m * q + m;
    if 2 * rem < m then q
    else if 2 * rem > m then q + 1
    else if q % 2 == 0 then q
    else q + 1
  }

  /** Off a tie, a nearest integer is unique: `RoundHalfEven` is the rounding of `a / m`. */
  lemma {:induction false} RoundUnique(a: nat, m: nat, k: int)
    requires m >= 1
    requires -(m as int) < 2 * (a - m * k) < m
    ensures RoundHalfEven(a, m) == k
  {
    var r := RoundHalfEven(a, m);
    // both a - m*r and a - m*k lie within m/2 of 0, so m * |r - k| < m
    MulDistance(m, k, r);
    MulDistance(m, r, k);
  }

  /** A tie is resolved to the even one of its two neighbours. */
  lemma {:induction false} RoundTie(a: nat, m: nat, q: nat)
    requires m >= 1
    requires 2 * a == m * (2 * q + 1)
    ensures RoundHalfEven(a, m) == if q % 2 == 0 then q else q + 1
  {
    var r := RoundHalfEven(a, m);
    // 2 * (a - m*r) == m * d, which lies in [-m, m] only for d in {1, -1}
    var d := 2 * q + 1 - 2 * r;
    MulSub(m, 2 * q + 1, 2 * r);
    assert m * (2 * r) == 2 * (m * r);
    assert 2 * (a - m * r) == m * d;
    MulMono(m, 3, d);
    MulMono(m, d, -3);
    assert r == q || r == q + 1;
  }

  /** Multiples of m that differ differ by at least m. */
  lemma MulDistance(m: nat, x: int, y: int)
    ensures x > y ==> m * x - m * y >= m
  {
    if x > y {
      MulSub(m, x, y);
      MulAtLeast(m, x - y);
    }
  }

  lemma MulSub(m: nat, x: int, y: int)
    ensures m * x - m * y == m * (x - y)
  {
  }

  lemma MulMono(m: nat, d: int, e: int)
    ensures d <= e ==> m * d <= m * e
  {
    if d < e {
      MulSub(m, e, d);
      MulAtLeast(m, e - d);
    }
  }

  lemma MulAtLeast(m: nat, d: int)
    requires d >= 1
    ensures m * d >= m
  {
  }

  /** `round(2.5) == 2`, `round(3.5) == 4`, `round(0.5) == 0`, `round(7 / 3) == 2`. */
  lemma RoundExamples()
    ensures RoundHalfEven(5, 2) == 2 && RoundHalfEven(7, 2) == 4
    ensures RoundHalfEven(1, 2) == 0 && RoundHalfEven(7, 3) == 2
  {
  }

  /** `x(a, b)` of the report: `round(a / max(b, 1))`. */
  function Average(total: nat, count: nat): (r: nat)
    // with no paragraphs the divisor is 1 and the total itself is reported
    ensures count == 0 ==> r == total
    // otherwise r is within one half of the true quotient total / count
    ensures count > 0 ==> -(count as int) <= 2 * (total - count * r) <= count
  {
    RoundHalfEven(total, if count == 0 then 1 else count)
  }

  /** Exact quotients come out unchanged. */
  lemma {:induction false} AverageExact(k: nat, count: nat)
    requires count > 0
    ensures Average(count * k, count) == k
  {
    RoundUnique(count * k, count, k);
  }

  /** One line of the report: a tag and its two averages. */
  datatype Row = Row(tag: string, chars: nat, words: nat)

  function ReportRow(tag: string, t: TagLength): Row
  {
    Row(tag, Average(t.chars, t.count), Average(t.words, t.count))
  }

  /**
   * From a consistent entry: a tag never seen reports 0 and 0, and a tag
   * seen at least once averages at least one word per paragraph.
   */
  lemma {:induction false} ReportRowConsistent(tag: string, t: TagLength)
    requires Consistent(t)
    ensures var row := ReportRow(tag, t);
            && row.tag == tag
            && (t.count == 0 ==> row.chars == 0 && row.words == 0)
            && (t.count > 0 ==> row.words >= 1)
  {
  }

  /**
   * The report loop: one row per tag, in the order the tags are given (the
   * insertion order of the dictionary, which is the order of `elements`).
   * The tags are exactly the keys of the dictionary, each listed once.
   */
  method ProcessAverageTagLength(tags: seq<string>, stats: map<string, TagLength>) returns (rows: seq<Row>)
    requires forall t :: t in stats <==> t in tags
    requires forall i, j :: 0 <= i < j < |tags| ==> tags[i] != tags[j]
    ensures |rows| == |tags|
    ensures forall i :: 0 <= i < |tags| ==> rows[i] == ReportRow(tags[i], stats[tags[i]])
    // every tag of the dictionary gets exactly one row
    ensures forall t :: t in stats ==> exists i :: 0 <= i < |rows| && rows[i].tag == t
    ensures forall i, j :: 0 <= i < j < |rows| ==> rows[i].tag != rows[j].tag
  {
    rows := [];
    for i := 0 to |tags|
      invariant |rows| == i
      invariant forall j :: 0 <= j < i ==> rows[j] == ReportRow(tags[j], stats[tags[j]])
    {
      var group := stats[tags[i]];
      var chars := Average(group.chars, group.count);
      var words := Average(group.words, group.count);
      rows := rows + [Row(tags[i], chars, words)];
    }
  }
}
