/** The few behaviours of java.lang.String that the core relies on:
    `String.split` with a one-character literal separator and the decimal
    rendering of an int (`String.valueOf`, `%d`). */
module JavaStrings {

  /** Every field of `s` between occurrences of `sep`, empty fields included. */
  function SplitAll(s: string, sep: char): (fields: seq<string>)
    ensures |fields| > 0
    decreases |s|
  {
    if |s| == 0 then [""]
    else
      var rest := SplitAll(s[1..], sep);
      if s[0] == sep then [""] + rest else [[s[0]] + rest[0]] + rest[1..]
  }

  /** The fields joined again with the separator between them. */
  function Join(fields: seq<string>, sep: char): string
    decreases |fields|
  {
    if |fields| == 0 then ""
    else if |fields| == 1 then fields[0]
    else fields[0] + [sep] + Join(fields[1..], sep)
  }

  /** `split` with limit 0 drops the empty fields at the end of the result. */
  function DropTrailingEmpty(fields: seq<string>): (r: seq<string>)
    ensures |r| <= |fields| && r == fields[..|r|]
    ensures |r| > 0 ==> r[|r| - 1] != ""
    ensures forall i :: |r| <= i < |fields| ==> fields[i] == ""
    decreases |fields|
  {
    if |fields| > 0 && fields[|fields| - 1] == "" then DropTrailingEmpty(fields[..|fields| - 1])
    else fields
  }

  /** `s.split(sep)` for a separator that is not a regular-expression
      metacharacter: the empty string splits into itself. */
  function Split(s: string, sep: char): (fields: seq<string>)
    ensures |fields| >= 2 ==> fields[|fields| - 1] != ""
  {
    if s == "" then [""] else DropTrailingEmpty(SplitAll(s, sep))
  }

  /** No field produced by SplitAll contains the separator, and joining the
      fields gives back the string. */
  lemma {:induction false} SplitAllJoin(s: string, sep: char)
    ensures Join(SplitAll(s, sep), sep) == s
    ensures forall i :: 0 <= i < |SplitAll(s, sep)| ==> sep !in SplitAll(s, sep)[i]
    decreases |s|
  {
    if |s| > 0 {
      SplitAllJoin(s[1..], sep);
      var rest := SplitAll(s[1..], sep);
      if s[0] == sep {
        assert SplitAll(s, sep) == [""] + rest;
        if |rest| == 1 {
          assert Join(rest, sep) == rest[0];
        }
        assert Join([""] + rest, sep) == "" + [sep] + Join(rest, sep) by {
          assert ([""] + rest)[1..] == rest;
        }
        assert [sep] + s[1..] == s;
      } else {
        var fields := [[s[0]] + rest[0]] + rest[1..];
        assert SplitAll(s, sep) == fields;
        if |rest| == 1 {
          assert Join(fields, sep) == [s[0]] + rest[0];
          assert [s[0]] + s[1..] == s;
        } else {
          assert fields[1..] == rest[1..];
          assert Join(rest, sep) == rest[0] + [sep] + Join(rest[1..], sep);
          assert Join(fields, sep) == [s[0]] + rest[0] + [sep] + Join(rest[1..], sep);
          assert [s[0]] + s[1..] == s;
        }
        forall i | 0 <= i < |fields| ensures sep !in fields[i] {
          if i > 0 {
            assert fields[i] == rest[i];
          }
        }
      }
    }
  }

  /** Splitting a join of separator-free fields gives the fields back. */
  lemma {:induction false} JoinSplitAll(fields: seq<string>, sep: char)
    requires |fields| > 0
    requires forall i :: 0 <= i < |fields| ==> sep !in fields[i]
    ensures SplitAll(Join(fields, sep), sep) == fields
    decreases |fields|, |fields[0]|
  {
    var f := fields[0];
    if |fields| == 1 {
      SplitAllOfPlain(f, sep);
    } else if |f| == 0 {
      var tail := fields[1..];
      JoinSplitAll(tail, sep);
      assert Join(fields, sep) == [sep] + Join(tail, sep);
      assert ([sep] + Join(tail, sep))[1..] == Join(tail, sep);
      assert fields == [""] + tail;
    } else {
      var shorter := [f[1..]] + fields[1..];
      forall i | 0 <= i < |shorter| ensures sep !in shorter[i] {
        if i == 0 {
          assert forall c :: c in f[1..] ==> c in f;
        } else {
          assert shorter[i] == fields[i];
        }
      }
      JoinSplitAll(shorter, sep);
      assert shorter[1..] == fields[1..];
      var j := Join(fields, sep);
      assert j == f + [sep] + Join(fields[1..], sep);
      assert Join(shorter, sep) == f[1..] + [sep] + Join(fields[1..], sep);
      assert j[0] == f[0] && j[1..] == Join(shorter, sep);
      assert f[0] != sep by { assert f[0] in f; }
      var rest := SplitAll(j[1..], sep);
      assert rest == shorter;
      assert SplitAll(j, sep) == [[f[0]] + f[1..]] + fields[1..];
      assert [f[0]] + f[1..] == f;
      assert [f] + fields[1..] == fields;
    }
  }

  /** A string without the separator is a single field. */
  lemma {:induction false} SplitAllOfPlain(s: string, sep: char)
    requires sep !in s
    ensures SplitAll(s, sep) == [s]
    decreases |s|
  {
    if |s| > 0 {
      assert forall c :: c in s[1..] ==> c in s;
      SplitAllOfPlain(s[1..], sep);
      assert s[0] in s;
      assert [s[0]] + s[1..] == s;
    }
  }

  /** The decimal digit character for 0..9. */
  function DigitChar(d: int): char
    requires 0 <= d < 10
  {
    ('0' as int + d) as char
  }

  /** `String.valueOf(n)` for a non-negative n: its decimal digits. */
  function NatToString(n: nat): (s: string)
    ensures |s| > 0
    ensures forall i :: 0 <= i < |s| ==> '0' <= s[i] <= '9'
    decreases n
  {
    if n < 10 then [DigitChar(n)] else NatToString(n / 10) + [DigitChar(n % 10)]
  }

  /** `String.valueOf(n)` for any int: a minus sign before the digits of |n|. */
  function IntToString(n: int): string
  {
    if n < 0 then "-" + NatToString(-n) else NatToString(n)
  }

  /** The value of a string of decimal digits. */
  function DecimalValue(s: string): int
    decreases |s|
  {
    if |s| == 0 then 0 else 10 * DecimalValue(s[..|s| - 1]) + (s[|s| - 1] as int - '0' as int)
  }

  /** Reading the digits back gives the number: the rendering loses nothing. */
  lemma {:induction false} NatToStringValue(n: nat)
    ensures DecimalValue(NatToString(n)) == n
    decreases n
  {
    if n >= 10 {
      NatToStringValue(n / 10);
      var s := NatToString(n);
      assert s[..|s| - 1] == NatToString(n / 10);
    }
  }

  /** Splitting a join of separator-free fields whose last field is not
      empty gives the fields back: nothing is dropped. */
  lemma SplitJoin(fields: seq<string>, sep: char)
    requires |fields| > 0 && fields[|fields| - 1] != ""
    requires forall i :: 0 <= i < |fields| ==> sep !in fields[i]
    ensures Split(Join(fields, sep), sep) == fields
  {
    JoinSplitAll(fields, sep);
    assert DropTrailingEmpty(fields) == fields;
  }
}
