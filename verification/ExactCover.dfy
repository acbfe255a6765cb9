/** The exact cover problem with primary columns (covered exactly once) and secondary
    columns (covered at most once), and how choosing a row splits the set of solutions. */
module ExactCover {
  import Sets

  /** The name of a row: putting `mark` at `place`. */
  datatype Choice = Choice(place: nat, mark: nat)

  /** `rows` gives the columns of each row; a column outside `primary` is secondary. */
  datatype Problem = Problem(rows: map<Choice, set<nat>>, primary: set<nat>)

  /** Every row reaches a primary column, so no row can be added to a cover for free. */
  ghost predicate Anchored(p: Problem) {
    forall r :: r in p.rows ==> p.rows[r] * p.primary != {}
  }

  ghost predicate AvoidsAll(p: Problem, gone: set<nat>, s: set<Choice>)
    requires s <= p.rows.Keys
  {
    forall r :: r in s ==> p.rows[r] !! gone
  }

  ghost predicate PairwiseDisjoint(p: Problem, s: set<Choice>)
    requires s <= p.rows.Keys
  {
    forall r, t :: r in s && t in s && r != t ==> p.rows[r] !! p.rows[t]
  }

  ghost predicate Reaches(p: Problem, s: set<Choice>, c: nat)
    requires s <= p.rows.Keys
  {
    exists r :: r in s && c in p.rows[r]
  }

  /** `s` covers each primary column outside `gone` once, each secondary column at most
      once, and touches no column of `gone`. */
  ghost predicate IsCover(p: Problem, gone: set<nat>, s: set<Choice>) {
    && s <= p.rows.Keys
    && AvoidsAll(p, gone, s)
    && PairwiseDisjoint(p, s)
    && forall c :: c in p.primary && c !in gone ==> Reaches(p, s, c)
  }

  ghost function Covers(p: Problem, gone: set<nat>): set<set<Choice>> {
    set s: set<Choice> | s <= p.rows.Keys && IsCover(p, gone, s)
  }

  /** The covers that use row `r`. */
  ghost function CoversWith(p: Problem, gone: set<nat>, r: Choice): set<set<Choice>> {
    set s | s in Covers(p, gone) && r in s
  }

  /** With every primary column gone the empty set is the one cover left. */
  lemma CoversDone(p: Problem, gone: set<nat>)
    requires Anchored(p) && p.primary <= gone
    ensures Covers(p, gone) == {{}}
  {
    forall s | s in Covers(p, gone)
      ensures s == {}
    {
      forall r | r in p.rows
        ensures r !in s
      {
        var c :| c in p.rows[r] * p.primary;
        assert c in gone;
      }
    }
    assert {} in Covers(p, gone);
  }

  lemma AddRow(p: Problem, gone: set<nat>, r: Choice, s: set<Choice>)
    requires r in p.rows && p.rows[r] !! gone && p.rows[r] != {}
    requires s in Covers(p, gone + p.rows[r])
    ensures r !in s && s + {r} in CoversWith(p, gone, r)
  {
    var u := s + {r};
    var c0 :| c0 in p.rows[r];
    assert c0 in gone + p.rows[r];
    forall c | c in p.primary && c !in gone
      ensures Reaches(p, u, c)
    {
      if c in p.rows[r] {
        assert r in u;
      } else {
        assert Reaches(p, s, c);
        var t :| t in s && c in p.rows[t];
        assert t in u;
      }
    }
    assert PairwiseDisjoint(p, u);
    assert AvoidsAll(p, gone, u);
  }

  lemma DropRow(p: Problem, gone: set<nat>, r: Choice, s: set<Choice>)
    requires s in CoversWith(p, gone, r)
    ensures r in p.rows && s - {r} in Covers(p, gone + p.rows[r])
  {
    var u := s - {r};
    forall c | c in p.primary && c !in gone + p.rows[r]
      ensures Reaches(p, u, c)
    {
      assert Reaches(p, s, c);
      var t :| t in s && c in p.rows[t];
      assert t in u;
    }
    forall t | t in u
      ensures p.rows[t] !! gone + p.rows[r]
    {
      assert p.rows[t] !! p.rows[r];
    }
    assert IsCover(p, gone + p.rows[r], u);
  }

  /** Choosing row `r` leaves exactly the covers of what `r` does not touch. */
  lemma ChooseRow(p: Problem, gone: set<nat>, r: Choice)
    requires r in p.rows && p.rows[r] !! gone && p.rows[r] != {}
    ensures |CoversWith(p, gone, r)| == |Covers(p, gone + p.rows[r])|
  {
    var xs, ys := Covers(p, gone + p.rows[r]), CoversWith(p, gone, r);
    var f := (s: set<Choice>) => s + {r};
    forall s | s in xs
      ensures f(s) in ys && r !in s
    {
      AddRow(p, gone, r, s);
    }
    forall s, s' | s in xs && s' in xs && f(s) == f(s')
      ensures s == s'
    {
      assert s == f(s) - {r} && s' == f(s') - {r};
    }
    forall s | s in ys
      ensures exists u :: u in xs && f(u) == s
    {
      DropRow(p, gone, r, s);
      assert f(s - {r}) == s;
    }
    Sets.BijectionSize(xs, ys, f);
  }

  /** Row `r` covers column `c` and is still open. */
  ghost predicate Offers(p: Problem, gone: set<nat>, c: nat, r: Choice) {
    r in p.rows && c in p.rows[r] && p.rows[r] !! gone
  }

  /** The covers that use one of the first rows of `list`. */
  ghost function CoversWithAny(p: Problem, gone: set<nat>, list: seq<Choice>): set<set<Choice>> {
    set s | s in Covers(p, gone) && exists i :: 0 <= i < |list| && list[i] in s
  }

  lemma NoRowsNoCovers(p: Problem, gone: set<nat>, list: seq<Choice>)
    requires list == []
    ensures CoversWithAny(p, gone, list) == {}
  {
  }

  /** Rows that share column `c` are never used together, so their covers add up. */
  lemma AddBranch(p: Problem, gone: set<nat>, c: nat, list: seq<Choice>, r: Choice)
    requires Offers(p, gone, c, r) && r !in list
    requires forall i :: 0 <= i < |list| ==> Offers(p, gone, c, list[i])
    ensures |CoversWithAny(p, gone, list + [r])|
         == |CoversWithAny(p, gone, list)| + |Covers(p, gone + p.rows[r])|
  {
    var a, b, w := CoversWithAny(p, gone, list), CoversWith(p, gone, r), CoversWithAny(p, gone, list + [r]);
    forall s | s in w
      ensures s in a || s in b
    {
      var i :| 0 <= i < |list + [r]| && (list + [r])[i] in s;
      if i < |list| {
        assert list[i] in s;
      }
    }
    forall s | s in a || s in b
      ensures s in w
    {
      if s in b {
        assert (list + [r])[|list|] in s;
      } else {
        var i :| 0 <= i < |list| && list[i] in s;
        assert (list + [r])[i] in s;
      }
    }
    forall s | s in a
      ensures s !in b
    {
      var i :| 0 <= i < |list| && list[i] in s;
      assert c in p.rows[list[i]] * p.rows[r];
    }
    assert w == a + b && a !! b;
    ChooseRow(p, gone, r);
  }

  /** All covers use one of the rows that still offer the primary column `c`. */
  lemma BranchesExhaust(p: Problem, gone: set<nat>, c: nat, list: seq<Choice>)
    requires c in p.primary && c !in gone
    requires forall r :: Offers(p, gone, c, r) ==> r in list
    ensures CoversWithAny(p, gone, list) == Covers(p, gone)
  {
    forall s | s in Covers(p, gone)
      ensures s in CoversWithAny(p, gone, list)
    {
      assert Reaches(p, s, c);
      var r :| r in s && c in p.rows[r];
      assert Offers(p, gone, c, r);
    }
  }
}
