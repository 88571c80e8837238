/** A board coordinate (othello/Position.java): column x and row y, both
    counted from 1 on a board. */
module Positions {
  import JavaStrings

  datatype Position = Position(x: int, y: int)

  /** `compareTo`: the column difference, or the row difference when the
      columns agree. Coordinates stay far from the int limits, so the
      subtractions never wrap. */
  function CompareTo(p: Position, q: Position): int
  {
    var comp := p.x - q.x;
    if comp == 0 then p.y - q.y else comp
  }

  /** Strict lexicographic order: by column, then by row. */
  predicate Before(p: Position, q: Position)
  {
    p.x < q.x || (p.x == q.x && p.y < q.y)
  }

  /** `equals` between two positions. */
  predicate Equals(p: Position, q: Position)
  {
    CompareTo(p, q) == 0
  }

  /** `hashCode`. */
  function HashCode(p: Position): int
  {
    p.x + 149 * p.y
  }

  /** The sign of `compareTo` is the lexicographic order, and equality is
      equality of both coordinates. */
  lemma CompareToIsLexicographic(p: Position, q: Position)
    ensures CompareTo(p, q) < 0 <==> Before(p, q)
    ensures CompareTo(p, q) > 0 <==> Before(q, p)
    ensures Equals(p, q) <==> p == q
    ensures Equals(p, q) ==> HashCode(p) == HashCode(q)
  {
  }

  /** The column letter, `(char)('A' + x - 1)`, for columns whose letter is
      a character below the surrogate range. */
  function ColumnLetter(x: int): char
    requires 0 <= 'A' as int + x - 1 < 0xD800
  {
    ('A' as int + x - 1) as char
  }

  /** The column a letter stands for, `c - 'A' + 1`, as the shell parses it. */
  function ColumnOf(c: char): int
  {
    c as int - 'A' as int + 1
  }

  /** `toString`: the column letter followed by the decimal row. */
  function ToString(p: Position): (s: string)
    requires 0 <= 'A' as int + p.x - 1 < 0xD800
    ensures |s| >= 2 && ColumnOf(s[0]) == p.x
    ensures s[1..] == JavaStrings.IntToString(p.y)
  {
    [ColumnLetter(p.x)] + JavaStrings.IntToString(p.y)
  }

  /** The shell reads back the column and the row of a rendered position. */
  lemma ToStringRoundTrip(p: Position)
    requires 1 <= p.x <= 26 && p.y >= 1
    ensures var s := ToString(p);
      ColumnOf(s[0]) == p.x && 'A' <= s[0] <= 'Z' && JavaStrings.DecimalValue(s[1..]) == p.y
  {
    JavaStrings.NatToStringValue(p.y);
  }
}
