/** The spool search (main.py:234-240): `Spool.tag.contains(q)` becomes the SQL
    condition `tag LIKE '%' || q || '%'`, evaluated by SQLite, and the rows are
    cut at 100. */
module TagSearch {
  import opened Registry
  import opened Text

  const SEARCH_LIMIT: nat := 100

  /** SQLite's LIKE without an ESCAPE clause and with case_sensitive_like off:
      `%` matches any run of characters, `_` any one character, and other
      characters match when they agree after ASCII case folding, which
      lowers the ASCII letters only. */
  predicate Like(s: string, p: string)
    decreases |s| + |p|
  {
    if p == [] then s == []
    else if p[0] == '%' then Like(s, p[1..]) || (s != [] && Like(s[1..], p))
    else if s == [] then false
    else if p[0] == '_' then Like(s[1..], p[1..])
    else LowerChar(s[0]) == LowerChar(p[0]) && Like(s[1..], p[1..])
  }

  /** The filter applied to a tag when the query string is not empty. */
  predicate TagMatches(tag: string, q: string)
  {
    Like(tag, ['%'] + q + ['%'])
  }

  predicate NoWildcards(q: string)
  {
    forall i :: 0 <= i < |q| ==> q[i] != '%' && q[i] != '_'
  }

  /** Equal after ASCII case folding, character by character. */
  predicate FoldEqual(a: string, b: string)
  {
    |a| == |b| && forall i :: 0 <= i < |a| ==> LowerChar(a[i]) == LowerChar(b[i])
  }

  /** `q` occurs in `tag` starting at position k, with ASCII letter case ignored. */
  predicate OccursIgnoringCaseAt(tag: string, q: string, k: nat)
  {
    k <= |tag| - |q| && FoldEqual(tag[k..k + |q|], q)
  }

  /** `q` occurs in `tag` if ASCII letter case is ignored. */
  ghost predicate ContainsIgnoringCase(tag: string, q: string)
  {
    exists k: nat :: OccursIgnoringCaseAt(tag, q, k)
  }

  lemma {:induction false} PercentMatchesAll(s: string)
    ensures Like(s, "%")
    decreases |s|
  {
    if s != [] {
      PercentMatchesAll(s[1..]);
    }
  }

  /** A leading `%` lets the rest of the pattern start at any position. */
  lemma {:induction false} LeadingPercent(s: string, p: string)
    ensures Like(s, ['%'] + p) <==> exists k :: 0 <= k <= |s| && Like(s[k..], p)
    decreases |s|
  {
    var pp := ['%'] + p;
    assert pp[1..] == p;
    if s == [] {
      assert s[0..] == s;
    } else {
      LeadingPercent(s[1..], p);
      if Like(s, pp) {
        if !Like(s, p) {
          var k :| 0 <= k <= |s[1..]| && Like(s[1..][k..], p);
          assert s[1..][k..] == s[k + 1..];
        } else {
          assert s[0..] == s;
        }
      } else {
        forall k | 0 <= k <= |s| ensures !Like(s[k..], p) {
          if k == 0 {
            assert s[0..] == s;
          } else {
            assert s[1..][k - 1..] == s[k..];
          }
        }
      }
    }
  }

  /** A pattern that begins with a literal string `q` and ends with `%` matches
      exactly the strings that begin with `q`, up to ASCII case. */
  lemma {:induction false} LiteralThenPercent(s: string, q: string)
    requires NoWildcards(q)
    ensures Like(s, q + ['%']) <==> |q| <= |s| && FoldEqual(s[..|q|], q)
    decreases |q|
  {
    var p := q + ['%'];
    if q == [] {
      assert p == "%";
      PercentMatchesAll(s);
    } else {
      assert p[0] == q[0] && p[1..] == q[1..] + ['%'];
      assert NoWildcards(q[1..]) by {
        forall i | 0 <= i < |q[1..]| ensures q[1..][i] != '%' && q[1..][i] != '_' {
          assert q[1..][i] == q[i + 1];
        }
      }
      assert q[0] != '%' && q[0] != '_';
      if s != [] {
        LiteralThenPercent(s[1..], q[1..]);
        if |q| <= |s| {
          assert s[..|q|] == [s[0]] + s[1..][..|q| - 1];
          if FoldEqual(s[..|q|], q) {
            assert FoldEqual(s[1..][..|q| - 1], q[1..]) by {
              forall i | 0 <= i < |q| - 1
                ensures LowerChar(s[1..][..|q| - 1][i]) == LowerChar(q[1..][i])
              {
                assert s[..|q|][i + 1] == s[1..][..|q| - 1][i];
              }
            }
          } else if LowerChar(s[0]) == LowerChar(q[0]) {
            assert !FoldEqual(s[1..][..|q| - 1], q[1..]) by {
              var i :| 0 <= i < |q| && LowerChar(s[..|q|][i]) != LowerChar(q[i]);
              assert i > 0;
              assert s[..|q|][i] == s[1..][..|q| - 1][i - 1];
            }
          }
        }
      }
    }
  }

  /** A query without wildcards selects a tag exactly when the tag contains the
      query with ASCII letter case ignored: the search is a case-insensitive
      substring filter, not a case-sensitive one. */
  lemma MatchesIffContainsIgnoringCase(tag: string, q: string)
    requires NoWildcards(q)
    ensures TagMatches(tag, q) <==> ContainsIgnoringCase(tag, q)
  {
    assert ['%'] + q + ['%'] == ['%'] + (q + ['%']);
    LeadingPercent(tag, q + ['%']);
    forall k: nat | k <= |tag|
      ensures Like(tag[k..], q + ['%']) <==> OccursIgnoringCaseAt(tag, q, k)
    {
      LiteralThenPercent(tag[k..], q);
      if k <= |tag| - |q| {
        assert tag[k..][..|q|] == tag[k..k + |q|];
      }
    }
    if TagMatches(tag, q) {
      var k :| 0 <= k <= |tag| && Like(tag[k..], q + ['%']);
      assert OccursIgnoringCaseAt(tag, q, k);
    }
    if ContainsIgnoringCase(tag, q) {
      var k: nat :| OccursIgnoringCaseAt(tag, q, k);
      assert Like(tag[k..], q + ['%']);
    }
  }

  /** A pattern that begins with `q` and ends with `%` matches every string
      that begins with `q` exactly, whatever `q` holds. */
  lemma {:induction false} PrefixMatches(s: string, q: string)
    requires |q| <= |s| && s[..|q|] == q
    ensures Like(s, q + ['%'])
    decreases |q|
  {
    var p := q + ['%'];
    if q == [] {
      assert p == "%";
      PercentMatchesAll(s);
    } else {
      assert p[0] == q[0] && p[1..] == q[1..] + ['%'];
      assert s[0] == q[0];
      assert s[1..][..|q| - 1] == q[1..];
      PrefixMatches(s[1..], q[1..]);
      if q[0] == '%' {
        assert Like(s[1..], p);
      }
    }
  }

  /** A tag that contains the query exactly is always selected, wildcards or not. */
  lemma ContainsImpliesMatches(tag: string, q: string)
    requires Contains(tag, q)
    ensures TagMatches(tag, q)
  {
    var k: nat :| OccursAt(tag, q, k);
    assert tag[k..][..|q|] == q;
    PrefixMatches(tag[k..], q);
    assert ['%'] + q + ['%'] == ['%'] + (q + ['%']);
    LeadingPercent(tag, q + ['%']);
  }

  /** The search matches without regard to letter case: "sp" selects "SP-001"
      although "SP-001" does not contain "sp". */
  lemma LowerCaseQuerySelectsUpperCaseTag()
    ensures TagMatches("SP-001", "sp")
    ensures !Contains("SP-001", "sp")
  {
    var q := "sp";
    assert NoWildcards(q);
    assert OccursIgnoringCaseAt("SP-001", q, 0);
    MatchesIffContainsIgnoringCase("SP-001", q);
    forall k: nat ensures !OccursAt("SP-001", q, k) {
      if k <= 4 {
        assert "SP-001"[k..k + 2][0] == "SP-001"[k];
      }
    }
  }

  /** An underscore in the query is a wildcard: "_" selects every non-empty tag. */
  lemma UnderscoreSelectsEveryTag(tag: string)
    requires tag != []
    ensures TagMatches(tag, "_")
  {
    var p := ['%'] + "_" + ['%'];
    assert p[1..] == "_%";
    assert "_%"[1..] == "%";
    PercentMatchesAll(tag[1..]);
    assert Like(tag, "_%");
  }

  /** The rows of the table the filter keeps, in table order; an empty query
      keeps them all (`if q:` at main.py:237). */
  function Matching(spools: seq<Spool>, q: string): (r: seq<Spool>)
    ensures |r| <= |spools|
    ensures forall s :: s in r <==> s in spools && (q == [] || TagMatches(s.tag, q))
  {
    if spools == [] then []
    else
      assert spools == [spools[0]] + spools[1..];
      var rest := Matching(spools[1..], q);
      if q == [] || TagMatches(spools[0].tag, q) then [spools[0]] + rest else rest
  }

  /** The filter keeps each matching row exactly as often as the table holds
      it, and no other row. */
  lemma {:induction false} MatchingMultiset(spools: seq<Spool>, q: string)
    ensures forall s :: multiset(Matching(spools, q))[s] ==
                (if q == [] || TagMatches(s.tag, q) then multiset(spools)[s] else 0)
  {
    if spools != [] {
      MatchingMultiset(spools[1..], q);
      assert spools == [spools[0]] + spools[1..];
    }
  }

  /** `query.limit(100).all()`: the first 100 matching rows. */
  function Search(spools: seq<Spool>, q: string): (r: seq<Spool>)
    ensures |r| <= SEARCH_LIMIT
    ensures forall s :: s in r ==> s in spools && (q == [] || TagMatches(s.tag, q))
    ensures |r| == if |Matching(spools, q)| < SEARCH_LIMIT then |Matching(spools, q)| else SEARCH_LIMIT
    ensures |Matching(spools, q)| <= SEARCH_LIMIT ==>
              forall s :: s in spools && (q == [] || TagMatches(s.tag, q)) ==> s in r
  {
    var m := Matching(spools, q);
    if |m| <= SEARCH_LIMIT then m
    else
      assert forall s :: s in m[..SEARCH_LIMIT] ==> s in m;
      m[..SEARCH_LIMIT]
  }

  /** The search never repeats a row more often than the table holds it, and
      when at most 100 rows match it returns each of them exactly as often as
      the table holds it. */
  lemma SearchMultiset(spools: seq<Spool>, q: string)
    ensures forall s :: multiset(Search(spools, q))[s] <= multiset(spools)[s]
    ensures |Matching(spools, q)| <= SEARCH_LIMIT ==>
      forall s :: multiset(Search(spools, q))[s] ==
                (if q == [] || TagMatches(s.tag, q) then multiset(spools)[s] else 0)
  {
    var m := Matching(spools, q);
    MatchingMultiset(spools, q);
    if |m| > SEARCH_LIMIT {
      assert m == m[..SEARCH_LIMIT] + m[SEARCH_LIMIT..];
      assert multiset(m) == multiset(m[..SEARCH_LIMIT]) + multiset(m[SEARCH_LIMIT..]);
    }
  }

  /** A tag none of whose characters folds to the first character of a
      non-empty query is not selected by it. */
  lemma FirstCharAbsentExcludes(tag: string, q: string)
    requires q != [] && NoWildcards(q)
    requires forall i :: 0 <= i < |tag| ==> LowerChar(tag[i]) != LowerChar(q[0])
    ensures !TagMatches(tag, q)
  {
    MatchesIffContainsIgnoringCase(tag, q);
    forall k: nat ensures !OccursIgnoringCaseAt(tag, q, k) {
      if k <= |tag| - |q| {
        assert tag[k..k + |q|][0] == tag[k];
      }
    }
  }

  /** The table of the lookup example. */
  const EXAMPLE_TABLE: seq<Spool> := [Spool(1, "SP-001"), Spool(2, "SP-002"), Spool(3, "AX-100")]

  /** A tag that starts with the query is selected. */
  lemma PrefixSelected(tag: string, q: string)
    requires |q| <= |tag| && tag[..|q|] == q
    ensures TagMatches(tag, q)
  {
    assert OccursAt(tag, q, 0);
    ContainsImpliesMatches(tag, q);
  }

  lemma ExampleTagsSP()
    ensures TagMatches(EXAMPLE_TABLE[0].tag, "SP") && TagMatches(EXAMPLE_TABLE[1].tag, "SP")
    ensures !TagMatches(EXAMPLE_TABLE[2].tag, "SP")
  {
    PrefixSelected(EXAMPLE_TABLE[0].tag, "SP");
    PrefixSelected(EXAMPLE_TABLE[1].tag, "SP");
    FirstCharAbsentExcludes(EXAMPLE_TABLE[2].tag, "SP");
  }

  /** The lookup example: among SP-001, SP-002 and AX-100, "SP" finds the
      first two, in table order. */
  lemma LookupExampleSP()
    ensures Search(EXAMPLE_TABLE, "SP") == EXAMPLE_TABLE[..2]
  {
    var t := EXAMPLE_TABLE;
    ExampleTagsSP();
    assert Matching(t[2..], "SP") == [];
    assert Matching(t[1..], "SP") == [t[1]] by {
      assert t[1..][1..] == t[2..];
    }
    assert Matching(t, "SP") == [t[0], t[1]];
  }

  /** ... and "zz" finds none. */
  lemma LookupExampleNone()
    ensures Search(EXAMPLE_TABLE, "zz") == []
  {
    var t := EXAMPLE_TABLE;
    FirstCharAbsentExcludes(t[0].tag, "zz");
    FirstCharAbsentExcludes(t[1].tag, "zz");
    FirstCharAbsentExcludes(t[2].tag, "zz");
    assert Matching(t[2..], "zz") == [];
    assert Matching(t[1..], "zz") == [] by {
      assert t[1..][1..] == t[2..];
    }
  }

  /** An empty query returns the table unfiltered, up to the limit. */
  lemma EmptyQueryReturnsAll(spools: seq<Spool>)
    ensures Search(spools, "") == if |spools| <= SEARCH_LIMIT then spools else spools[..SEARCH_LIMIT]
  {
    EmptyQueryKeepsAll(spools);
  }

  lemma {:induction false} EmptyQueryKeepsAll(spools: seq<Spool>)
    ensures Matching(spools, "") == spools
  {
    if spools != [] {
      EmptyQueryKeepsAll(spools[1..]);
      assert spools == [spools[0]] + spools[1..];
    }
  }
}
