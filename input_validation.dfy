/** The name rule of the registry (minipraktomat/InputValidation.java,
    `isCorrectName`): no space, and the whole name matches `[a-z]+`. */
module NameRules {

  predicate IsLower(c: char)
  {
    'a' <= c <= 'z'
  }

  /** The regular expression `[a-z]+`, matched against the whole string:
      one lower-case letter, followed by the match of the rest or nothing. */
  predicate MatchesLowerPlus(s: string)
    decreases |s|
  {
    |s| >= 1 && IsLower(s[0]) && (|s| == 1 || MatchesLowerPlus(s[1..]))
  }

  /** `isCorrectName`. */
  predicate IsCorrectName(name: string)
  {
    ' ' !in name && MatchesLowerPlus(name)
  }

  /** The regular expression accepts exactly the non-empty strings of
      lower-case letters. */
  lemma {:induction false} MatchesLowerPlusMeaning(s: string)
    ensures MatchesLowerPlus(s) <==> |s| > 0 && forall i :: 0 <= i < |s| ==> IsLower(s[i])
    decreases |s|
  {
    if |s| > 1 {
      MatchesLowerPlusMeaning(s[1..]);
      if forall i :: 0 <= i < |s| ==> IsLower(s[i]) {
        assert forall i :: 0 <= i < |s[1..]| ==> IsLower(s[1..][i]) by {
          forall i | 0 <= i < |s[1..]| ensures IsLower(s[1..][i]) {
            assert s[1..][i] == s[i + 1];
          }
        }
      }
      if MatchesLowerPlus(s) {
        forall i | 0 <= i < |s| ensures IsLower(s[i]) {
          if i > 0 {
            assert s[i] == s[1..][i - 1];
          }
        }
      }
    }
  }

  /** A correct name is a non-empty string of lower-case letters, so the
      empty string, spaces, capitals and digits are all rejected. */
  lemma IsCorrectNameMeaning(name: string)
    ensures IsCorrectName(name) <==> |name| > 0 && forall i :: 0 <= i < |name| ==> IsLower(name[i])
    ensures ' ' in name || name == "" ==> !IsCorrectName(name)
    ensures (exists i :: 0 <= i < |name| && ('A' <= name[i] <= 'Z' || '0' <= name[i] <= '9')) ==> !IsCorrectName(name)
  {
    MatchesLowerPlusMeaning(name);
    if ' ' in name {
      var i :| 0 <= i < |name| && name[i] == ' ';
    }
  }
}
