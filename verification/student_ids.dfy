/**
 Recognisers for the two identifier shapes the scoreboard trusts: a crawled
 submitter column must start with seven digits, and a judge user name must
 start with `0` followed by six digits. Both are tested with Python's
 `re.match`, which anchors a pattern at the start of the string only, so any
 characters may follow a matching prefix.
 */
module StudentIds {

  predicate IsDigit(c: char) {
    '0' <= c <= '9'
  }

  /** One position of a fixed-length pattern: `\d` or a literal character. */
  datatype Atom = Digit | Lit(c: char)

  predicate Accepts(a: Atom, c: char) {
    match a
    case Digit => IsDigit(c)
    case Lit(l) => c == l
  }

  /** `re.match` of a pattern made of single-character atoms: each atom must
      accept the character at its position; what follows is not examined. */
  predicate MatchPrefix(p: seq<Atom>, s: string) {
    if |p| == 0 then true
    else |s| > 0 && Accepts(p[0], s[0]) && MatchPrefix(p[1..], s[1..])
  }

  function Repeat(a: Atom, n: nat): (r: seq<Atom>)
    ensures |r| == n
    ensures forall i :: 0 <= i < n ==> r[i] == a
  {
    if n == 0 then [] else [a] + Repeat(a, n - 1)
  }

  /** The pattern `(\d){7}` applied to the crawled `Submitter` column. */
  const SubmitterPattern: seq<Atom> := Repeat(Digit, 7)

  /** The pattern `0(\d){6}` applied to judge user names. */
  const UserNamePattern: seq<Atom> := [Lit('0')] + Repeat(Digit, 6)

  predicate IsSubmitterId(s: string) {
    MatchPrefix(SubmitterPattern, s)
  }

  predicate IsStudentName(s: string) {
    MatchPrefix(UserNamePattern, s)
  }

  /** The anchored-prefix matcher accepts exactly the strings whose first |p|
      characters are accepted position by position. */
  lemma {:induction false} MatchPrefixIff(p: seq<Atom>, s: string)
    ensures MatchPrefix(p, s) <==>
      |p| <= |s| && forall i :: 0 <= i < |p| ==> Accepts(p[i], s[i])
    decreases |p|
  {
    if |p| > 0 && |s| > 0 {
      MatchPrefixIff(p[1..], s[1..]);
      if Accepts(p[0], s[0]) && MatchPrefix(p[1..], s[1..]) {
        forall i | 0 <= i < |p|
          ensures Accepts(p[i], s[i])
        {
          if i > 0 {
            assert p[1..][i - 1] == p[i] && s[1..][i - 1] == s[i];
          }
        }
      }
      if |p| <= |s| && forall i :: 0 <= i < |p| ==> Accepts(p[i], s[i]) {
        forall i | 0 <= i < |p| - 1
          ensures Accepts(p[1..][i], s[1..][i])
        {
          assert Accepts(p[i + 1], s[i + 1]);
        }
      }
    }
  }

  /** Because the match is anchored only at the start, appending characters
      never turns a matching string into a non-matching one. */
  lemma {:induction false} MatchIgnoresSuffix(p: seq<Atom>, s: string, t: string)
    requires MatchPrefix(p, s)
    ensures MatchPrefix(p, s + t)
    decreases |p|
  {
    if |p| > 0 {
      assert (s + t)[0] == s[0];
      assert (s + t)[1..] == s[1..] + t;
      MatchIgnoresSuffix(p[1..], s[1..], t);
    }
  }

  /** A submitter is kept exactly when it begins with seven ASCII digits. */
  lemma SubmitterIdIff(s: string)
    ensures IsSubmitterId(s) <==> |s| >= 7 && forall i :: 0 <= i < 7 ==> IsDigit(s[i])
  {
    MatchPrefixIff(SubmitterPattern, s);
  }

  /** A user is kept exactly when the name is `0` followed by six ASCII
      digits, with anything after them. */
  lemma StudentNameIff(s: string)
    ensures IsStudentName(s) <==>
      |s| >= 7 && s[0] == '0' && forall i :: 1 <= i < 7 ==> IsDigit(s[i])
  {
    MatchPrefixIff(UserNamePattern, s);
    if |s| >= 7 && s[0] == '0' && forall i :: 1 <= i < 7 ==> IsDigit(s[i]) {
      forall i | 0 <= i < |UserNamePattern|
        ensures Accepts(UserNamePattern[i], s[i])
      {
        if i > 0 {
          assert UserNamePattern[i] == Repeat(Digit, 6)[i - 1];
        }
      }
    }
    if IsStudentName(s) {
      assert Accepts(UserNamePattern[0], s[0]);
      forall i | 1 <= i < 7
        ensures IsDigit(s[i])
      {
        assert UserNamePattern[i] == Repeat(Digit, 6)[i - 1];
        assert Accepts(UserNamePattern[i], s[i]);
      }
    }
  }
}
