/**
 The commentary ranking: one record per tally key, in the tally's key
 order, each carrying the user's score, then a stable sort that puts
 higher scores first (the comparator `b.score - a.score` given to the
 built-in stable array sort).
 */
module Ranking {
  import C = Commentary

  /** One row of the ranking. */
  datatype Entry = Entry(user: string, comments: nat, commentBytes: nat, score: nat)

  /** One point per counted comment plus one per whole kibibyte
      (1024 code units) of counted text. */
  function Score(s: C.Stat): (r: nat)
    ensures s.comments <= r
    ensures (r - s.comments) * 1024 <= s.commentBytes < (r - s.comments + 1) * 1024
  {
    s.comments + s.commentBytes / 1024
  }

  function MakeEntry(user: string, s: C.Stat): Entry {
    Entry(user, s.comments, s.commentBytes, Score(s))
  }

  /** The records in the order the tally's keys are enumerated. */
  function Gather(t: C.Tally): (r: seq<Entry>)
    requires forall k :: k in t.order ==> k in t.stats
    ensures |r| == |t.order|
  {
    seq(|t.order|, i requires 0 <= i < |t.order| => MakeEntry(t.order[i], t.stats[t.order[i]]))
  }

  /* ------------------------------------------------------------------ */
  /* Stable sort by descending score                                    */
  /* ------------------------------------------------------------------ */

  /** No record scores higher than the one before it. */
  ghost predicate SortedByScore(s: seq<Entry>) {
    forall i :: 0 <= i < |s| - 1 ==> s[i].score >= s[i + 1].score
  }

  /** Insert `x` before the first record that scores no higher than it,
      so that `x` precedes every record it ties with. */
  function InsertByScore(x: Entry, t: seq<Entry>): (r: seq<Entry>)
    ensures |r| == |t| + 1
    ensures multiset(r) == multiset(t) + multiset{x}
    ensures r[0] == x || (|t| > 0 && r[0] == t[0])
  {
    if |t| == 0 || x.score >= t[0].score then [x] + t
    else
      assert t == [t[0]] + t[1..];
      [t[0]] + InsertByScore(x, t[1..])
  }

  /** Inserting into a sorted list keeps it sorted. */
  lemma {:induction false} InsertSorted(x: Entry, t: seq<Entry>)
    requires SortedByScore(t)
    ensures SortedByScore(InsertByScore(x, t))
  {
    if |t| > 0 && x.score < t[0].score {
      var rest := InsertByScore(x, t[1..]);
      assert SortedByScore(t[1..]) by {
        forall i | 0 <= i < |t[1..]| - 1 ensures t[1..][i].score >= t[1..][i + 1].score {
          assert t[1..][i] == t[i + 1] && t[1..][i + 1] == t[i + 2];
        }
      }
      InsertSorted(x, t[1..]);
      var r := [t[0]] + rest;
      assert InsertByScore(x, t) == r;
      forall i | 0 <= i < |r| - 1 ensures r[i].score >= r[i + 1].score {
        if i > 0 {
          assert r[i] == rest[i - 1] && r[i + 1] == rest[i];
        } else if |t| > 1 {
          assert t[1..][0] == t[1];
        }
      }
    }
  }

  /** Insertion sort from the back: each record is inserted in front of
      the records it ties with, all of which came after it. */
  function SortByScore(s: seq<Entry>): (r: seq<Entry>)
    ensures |r| == |s|
    ensures multiset(r) == multiset(s)
    ensures SortedByScore(r)
  {
    if |s| == 0 then []
    else
      assert s == [s[0]] + s[1..];
      InsertSorted(s[0], SortByScore(s[1..]));
      InsertByScore(s[0], SortByScore(s[1..]))
  }

  /** Adjacent order extends to every pair. */
  lemma {:induction false} SortedByScoreAllPairs(s: seq<Entry>)
    requires SortedByScore(s)
    ensures forall i, j :: 0 <= i <= j < |s| ==> s[i].score >= s[j].score
  {
    if |s| > 1 {
      SortedByScoreAllPairs(s[1..]);
      forall i, j | 0 <= i <= j < |s| ensures s[i].score >= s[j].score {
        if 0 < i {
          assert s[i] == s[1..][i - 1] && s[j] == s[1..][j - 1];
        } else if 0 < j {
          assert s[1] == s[1..][0] && s[j] == s[1..][j - 1];
        }
      }
    }
  }

  /** `f` grows strictly along `s`. */
  ghost predicate IncreasingBy(s: seq<Entry>, f: Entry -> nat) {
    forall i, j :: 0 <= i < j < |s| ==> f(s[i]) < f(s[j])
  }

  /** Among records with equal scores, `f` grows along `s`. */
  ghost predicate TiesOrderedBy(s: seq<Entry>, f: Entry -> nat) {
    forall i, j :: 0 <= i < j < |s| && s[i].score == s[j].score ==> f(s[i]) < f(s[j])
  }

  lemma {:induction false} InsertTies(x: Entry, t: seq<Entry>, f: Entry -> nat)
    requires TiesOrderedBy(t, f)
    requires forall k :: 0 <= k < |t| ==> f(x) < f(t[k])
    ensures TiesOrderedBy(InsertByScore(x, t), f)
  {
    var r := InsertByScore(x, t);
    if |t| == 0 || x.score >= t[0].score {
      forall i, j | 0 <= i < j < |r| && r[i].score == r[j].score ensures f(r[i]) < f(r[j]) {
        if i > 0 {
          assert r[i] == t[i - 1] && r[j] == t[j - 1];
        } else {
          assert r[j] == t[j - 1];
        }
      }
    } else {
      var rest := InsertByScore(x, t[1..]);
      assert r == [t[0]] + rest;
      InsertTies(x, t[1..], f);
      forall i, j | 0 <= i < j < |r| && r[i].score == r[j].score ensures f(r[i]) < f(r[j]) {
        if i > 0 {
          assert r[i] == rest[i - 1] && r[j] == rest[j - 1];
        } else {
          var e := r[j];
          assert e == rest[j - 1];
          assert e in multiset(rest);
          if e == x {
            assert false;
          } else {
            assert e in multiset(t[1..]);
            var k :| 0 <= k < |t[1..]| && t[1..][k] == e;
            assert t[k + 1] == e;
          }
        }
      }
    }
  }

  /** The sort is stable: when `f` grows along the input (as the input
      position does), it grows along every run of equal scores in the
      output, so tied records keep their input order. */
  lemma {:induction false} SortStable(s: seq<Entry>, f: Entry -> nat)
    requires IncreasingBy(s, f)
    ensures TiesOrderedBy(SortByScore(s), f)
  {
    if |s| > 0 {
      var t := SortByScore(s[1..]);
      assert IncreasingBy(s[1..], f) by {
        forall i, j | 0 <= i < j < |s[1..]| ensures f(s[1..][i]) < f(s[1..][j]) {
          assert s[1..][i] == s[i + 1] && s[1..][j] == s[j + 1];
        }
      }
      SortStable(s[1..], f);
      forall k | 0 <= k < |t| ensures f(s[0]) < f(t[k]) {
        assert t[k] in multiset(s[1..]);
        var m :| 0 <= m < |s[1..]| && s[1..][m] == t[k];
        assert s[m + 1] == t[k];
      }
      InsertTies(s[0], t, f);
    }
  }

  /* ------------------------------------------------------------------ */
  /* Users are kept distinct                                            */
  /* ------------------------------------------------------------------ */

  /** No user has two records. */
  ghost predicate DistinctUsers(s: seq<Entry>) {
    forall i, j :: 0 <= i < j < |s| ==> s[i].user != s[j].user
  }

  /** Every record of `InsertByScore(x, t)` is `x` or a record of `t`. */
  lemma InsertMember(x: Entry, t: seq<Entry>, e: Entry)
    requires e in InsertByScore(x, t)
    ensures e == x || e in t
  {
    assert e in multiset(InsertByScore(x, t));
  }

  lemma {:induction false} InsertDistinct(x: Entry, t: seq<Entry>)
    requires DistinctUsers(t)
    requires forall k :: 0 <= k < |t| ==> t[k].user != x.user
    ensures DistinctUsers(InsertByScore(x, t))
  {
    var r := InsertByScore(x, t);
    if |t| == 0 || x.score >= t[0].score {
      forall i, j | 0 <= i < j < |r| ensures r[i].user != r[j].user {
        if i > 0 {
          assert r[i] == t[i - 1] && r[j] == t[j - 1];
        } else {
          assert r[j] == t[j - 1];
        }
      }
    } else {
      var rest := InsertByScore(x, t[1..]);
      assert r == [t[0]] + rest;
      InsertDistinct(x, t[1..]);
      forall i, j | 0 <= i < j < |r| ensures r[i].user != r[j].user {
        if i > 0 {
          assert r[i] == rest[i - 1] && r[j] == rest[j - 1];
        } else {
          var e := r[j];
          assert e == rest[j - 1];
          InsertMember(x, t[1..], e);
          if e != x {
            var k :| 0 <= k < |t[1..]| && t[1..][k] == e;
            assert t[k + 1] == e;
          }
        }
      }
    }
  }

  /** Sorting keeps the records distinct per user. */
  lemma {:induction false} SortDistinct(s: seq<Entry>)
    requires DistinctUsers(s)
    ensures DistinctUsers(SortByScore(s))
  {
    if |s| > 0 {
      var t := SortByScore(s[1..]);
      assert DistinctUsers(s[1..]) by {
        forall i, j | 0 <= i < j < |s[1..]| ensures s[1..][i].user != s[1..][j].user {
          assert s[1..][i] == s[i + 1] && s[1..][j] == s[j + 1];
        }
      }
      SortDistinct(s[1..]);
      forall k | 0 <= k < |t| ensures t[k].user != s[0].user {
        assert t[k] in multiset(s[1..]);
        var m :| 0 <= m < |s[1..]| && s[1..][m] == t[k];
        assert s[m + 1] == t[k];
      }
      InsertDistinct(s[0], t);
    }
  }

  /* ------------------------------------------------------------------ */
  /* The ranking of a comment list                                      */
  /* ------------------------------------------------------------------ */

  /** Gather the tally of `cs` and sort it by descending score. */
  function Rank(cs: seq<C.Comment>): (r: seq<Entry>)
    ensures |r| == |C.Aggregate(cs).order|
    ensures SortedByScore(r)
  {
    C.AggregateMatches(cs);
    SortByScore(Gather(C.Aggregate(cs)))
  }

  /** Gathering a valid tally lists each key once, in key order, with
      the figures stored for it. */
  lemma GatherFacts(t: C.Tally)
    requires C.Valid(t)
    ensures DistinctUsers(Gather(t))
    ensures forall i :: 0 <= i < |t.order| ==> Gather(t)[i].user == t.order[i]
    ensures forall i :: 0 <= i < |t.order| ==>
              C.Stat(Gather(t)[i].comments, Gather(t)[i].commentBytes) == t.stats[t.order[i]]
    ensures forall i :: 0 <= i < |t.order| ==> Gather(t)[i].score == Score(t.stats[t.order[i]])
  {
  }

  /** Every key of a valid tally has a record after sorting. */
  lemma SortedGatherCovers(t: C.Tally, l: string)
    requires C.Valid(t)
    requires l in t.stats
    ensures exists i :: 0 <= i < |SortByScore(Gather(t))| && SortByScore(Gather(t))[i].user == l
  {
    var g := Gather(t);
    var r := SortByScore(g);
    var k :| 0 <= k < |t.order| && t.order[k] == l;
    assert g[k].user == l;
    assert g[k] in multiset(r);
    var i :| 0 <= i < |r| && r[i] == g[k];
  }

  /** Every sorted record of a valid tally belongs to one of its keys. */
  lemma SortedGatherKeys(t: C.Tally, i: nat)
    requires C.Valid(t)
    requires i < |SortByScore(Gather(t))|
    ensures SortByScore(Gather(t))[i].user in t.stats
  {
    var g := Gather(t);
    var r := SortByScore(g);
    assert r[i] in multiset(g);
    var k :| 0 <= k < |g| && g[k] == r[i];
    assert g[k].user == t.order[k];
  }

  /** The ranking has exactly one record per commenting login. */
  lemma RankCoversLogins(cs: seq<C.Comment>)
    ensures DistinctUsers(Rank(cs))
    ensures forall l :: l in C.Logins(cs) ==> exists i :: 0 <= i < |Rank(cs)| && Rank(cs)[i].user == l
    ensures forall i :: 0 <= i < |Rank(cs)| ==> Rank(cs)[i].user in C.Logins(cs)
  {
    var t := C.Aggregate(cs);
    C.AggregateMatches(cs);
    var r := SortByScore(Gather(t));
    assert Rank(cs) == r;
    RankedGatherDistinct(t);
    forall l | l in C.Logins(cs) ensures exists i :: 0 <= i < |r| && r[i].user == l {
      SortedGatherCovers(t, l);
    }
    forall i | 0 <= i < |r| ensures r[i].user in C.Logins(cs) {
      SortedGatherKeys(t, i);
    }
  }

  lemma RankedGatherDistinct(t: C.Tally)
    requires C.Valid(t)
    ensures DistinctUsers(SortByScore(Gather(t)))
  {
    GatherFacts(t);
    SortDistinct(Gather(t));
  }

  /** Each ranked record holds its login's counted comments, their total
      length and the score computed from them, and the score is zero
      exactly when nothing was counted. */
  lemma RankRecords(cs: seq<C.Comment>)
    ensures forall i :: 0 <= i < |Rank(cs)| ==>
              var e := Rank(cs)[i];
              && e.comments == C.CountOf(cs, e.user)
              && e.commentBytes == C.BytesOf(cs, e.user)
              && e.score == Score(C.Stat(e.comments, e.commentBytes))
              && (e.score == 0 <==> e.comments == 0)
  {
    forall i | 0 <= i < |Rank(cs)|
      ensures Rank(cs)[i].comments == C.CountOf(cs, Rank(cs)[i].user)
      ensures Rank(cs)[i].commentBytes == C.BytesOf(cs, Rank(cs)[i].user)
      ensures Rank(cs)[i].score == Score(C.Stat(Rank(cs)[i].comments, Rank(cs)[i].commentBytes))
      ensures Rank(cs)[i].score == 0 <==> Rank(cs)[i].comments == 0
    {
      RankRecord(cs, Rank(cs)[i]);
    }
  }

  lemma RankRecord(cs: seq<C.Comment>, e: Entry)
    requires e in Rank(cs)
    ensures e.comments == C.CountOf(cs, e.user)
    ensures e.commentBytes == C.BytesOf(cs, e.user)
    ensures e.score == Score(C.Stat(e.comments, e.commentBytes))
    ensures e.score == 0 <==> e.comments == 0
  {
    var t := C.Aggregate(cs);
    C.AggregateMatches(cs);
    var g := Gather(t);
    assert Rank(cs) == SortByScore(g);
    assert e in multiset(g);
    var k :| 0 <= k < |g| && g[k] == e;
    assert e == MakeEntry(t.order[k], t.stats[t.order[k]]);
    if e.comments == 0 {
      C.NoCountNoBytes(cs, e.user);
    }
  }

  /** Tied records appear in the order their users first commented. */
  lemma RankTies(cs: seq<C.Comment>)
    ensures forall i, j :: 0 <= i < j < |Rank(cs)| && Rank(cs)[i].score == Rank(cs)[j].score ==>
              C.FirstIndex(cs, Rank(cs)[i].user) < C.FirstIndex(cs, Rank(cs)[j].user)
  {
    var t := C.Aggregate(cs);
    C.AggregateMatches(cs);
    C.AggregateOrder(cs);
    var g := Gather(t);
    assert Rank(cs) == SortByScore(g);
    GatherFacts(t);
    var f := (e: Entry) => C.FirstIndex(cs, e.user);
    assert IncreasingBy(g, f);
    SortStable(g, f);
  }

  /** The ranking is a rearrangement of the gathered records. */
  lemma RankIsPermutation(cs: seq<C.Comment>)
    ensures C.Valid(C.Aggregate(cs))
    ensures multiset(Rank(cs)) == multiset(Gather(C.Aggregate(cs)))
  {
    C.AggregateMatches(cs);
  }
}
