/** `validateEmail`: the regular expression `^[^\s@]+@[^\s@]+\.[^\s@]+$`
    and the character-level reading of what it accepts. */
module Email {
  import opened Text

  /** Every character of `t` belongs to the class `[^\s@]`. */
  predicate Atoms(t: string)
  {
    forall k :: 0 <= k < |t| ==> t[k] != '@' && !IsSpace(t[k])
  }

  /** `s` matches the pattern with the `@` at index `at` and the literal `.`
      at index `dot`: three non-empty runs of `[^\s@]` around them. */
  predicate MatchesAt(s: string, at: int, dot: int)
  {
    && 0 < at && at + 1 < dot && dot + 1 < |s|
    && s[at] == '@' && s[dot] == '.'
    && Atoms(s[..at]) && Atoms(s[at + 1..dot]) && Atoms(s[dot + 1..])
  }

  /** `validateEmail(s)`: the anchored pattern matches `s` for some choice
      of the backtracking split points. The middle run may itself contain
      dots, so the `.` in the pattern can be any dot of the domain that has
      a character on each side. */
  predicate ValidEmail(s: string): (ok: bool)
    ensures ok ==> |s| >= 5 && '@' in s && '.' in s
  {
    exists at, dot | 0 <= at < dot < |s| :: MatchesAt(s, at, dot)
  }

  /** Position of the first `c` in `s`. */
  function IndexOf(s: string, c: char): (i: nat)
    requires c in s
    ensures i < |s| && s[i] == c && c !in s[..i]
  {
    if s[0] == c then 0 else 1 + IndexOf(s[1..], c)
  }

  /** `d` holds a `.` that is neither its first nor its last character. */
  predicate InnerDot(d: string)
  {
    exists k | 0 < k < |d| - 1 :: d[k] == '.'
  }

  /** The structural reading of a valid address: no whitespace anywhere,
      exactly one `@`, a non-empty local part before it, and a domain after
      it with an inner dot. */
  predicate Structural(s: string)
  {
    && (forall k :: 0 <= k < |s| ==> !IsSpace(s[k]))
    && multiset(s)['@'] == 1
    && var at := IndexOf(s, '@');
       at > 0 && InnerDot(s[at + 1..])
  }

  /** A run of `[^\s@]` holds no `@`. */
  lemma AtomsHaveNoAt(t: string)
    requires Atoms(t)
    ensures multiset(t)['@'] == 0
  {
  }

  /** A match pins down the structure: the `@` it uses is the only one. */
  lemma MatchIsStructural(s: string, at: int, dot: int)
    requires MatchesAt(s, at, dot)
    ensures Structural(s)
  {
    var local, dom, tld := s[..at], s[at + 1..dot], s[dot + 1..];
    assert s == local + [s[at]] + dom + [s[dot]] + tld;
    AtomsHaveNoAt(local);
    AtomsHaveNoAt(dom);
    AtomsHaveNoAt(tld);
    assert multiset(s)['@'] == 1;
    forall k | 0 <= k < |s|
      ensures !IsSpace(s[k])
    {
      if k < at {
        assert s[k] == local[k];
      } else if at < k < dot {
        assert s[k] == dom[k - at - 1];
      } else if dot < k {
        assert s[k] == tld[k - dot - 1];
      }
    }
    assert '@' !in s[..at];
    assert IndexOf(s, '@') == at;
    assert s[at + 1..][dot - at - 1] == '.';
  }

  /** With exactly one `@`, the first `@` is the only one. */
  lemma SingleAt(s: string)
    requires multiset(s)['@'] == 1
    ensures var at := IndexOf(s, '@');
      forall i :: 0 <= i < |s| && i != at ==> s[i] != '@'
  {
    var at := IndexOf(s, '@');
    var before, after := s[..at], s[at + 1..];
    assert s == before + [s[at]] + after;
    assert multiset(s) == multiset(before) + multiset([s[at]]) + multiset(after);
    assert multiset(before)['@'] == 0;
    assert '@' !in after by {
      assert multiset(after)['@'] == 0;
    }
    forall i | 0 <= i < |s| && i != at
      ensures s[i] != '@'
    {
      if i < at {
        assert s[i] == before[i];
      } else {
        assert s[i] == after[i - at - 1];
      }
    }
  }

  /** Conversely the structural reading yields the split points. */
  lemma StructuralMatches(s: string) returns (at: int, dot: int)
    requires Structural(s)
    ensures 0 <= at < dot < |s| && MatchesAt(s, at, dot)
  {
    at := IndexOf(s, '@');
    SingleAt(s);
    var d := s[at + 1..];
    var k :| 0 < k < |d| - 1 && d[k] == '.';
    dot := at + 1 + k;
    assert s[dot] == '.';
    assert Atoms(s[..at]);
    assert Atoms(s[at + 1..dot]);
    assert Atoms(s[dot + 1..]);
  }

  /** The regular expression accepts exactly the structurally valid
      addresses. */
  lemma ValidEmailIffStructural(s: string)
    ensures ValidEmail(s) <==> Structural(s)
  {
    if ValidEmail(s) {
      var at, dot :| 0 <= at < dot < |s| && MatchesAt(s, at, dot);
      MatchIsStructural(s, at, dot);
    }
    if Structural(s) {
      var at, dot := StructuralMatches(s);
    }
  }

  /** A typical address is accepted. */
  lemma SampleAddressAccepted()
    ensures ValidEmail("user@example.com")
  {
    assert MatchesAt("user@example.com", 4, 12);
  }

  /** A string without `@`, or without a `.` after its `@` that has a
      character on both sides, is rejected. */
  lemma MissingPartsRejected(s: string)
    requires '@' !in s || !InnerDot(s[IndexOf(s, '@') + 1..])
    ensures !ValidEmail(s)
  {
  }
}
