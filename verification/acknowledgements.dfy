/**
 The acknowledgement list: the display name of every tallied login whose
 profile is cached, sorted by last name. The last name is the final
 piece of the display name split on the space character, and last names
 are compared with JavaScript's `<` on strings (code-unit order). The
 sort is the built-in stable array sort given the last-name comparator.
 */
module Acknowledgements {
  import Text
  import C = Commentary

  datatype Option<T> = None | Some(value: T)

  /** The fields of a cached user profile that the list reads; `name` is
      `None` when the profile has no display name (`null`). */
  datatype Profile = Profile(login: string, name: Option<string>)

  /** `user.name || user.login`: a missing or empty name falls back to
      the login. */
  function DisplayName(p: Profile): (r: string)
    ensures p.name.Some? && p.name.value != "" ==> r == p.name.value
    ensures p.name == None || p.name == Some("") ==> r == p.login
  {
    match p.name
    case Some(n) => if n != "" then n else p.login
    case None => p.login
  }

  /** The last piece of `name.split(' ')`. */
  function LastName(name: string): string {
    Text.LastPiece(name, ' ')
  }

  /** The comparator: -1, 1 or 0 as the last name of `a` comes before,
      after, or is the same as the last name of `b`. */
  function Compare(a: string, b: string): (r: int)
    ensures r == 0 || r == -1 || r == 1
    ensures r == 0 <==> LastName(a) == LastName(b)
    ensures r < 0 <==> Text.Less(LastName(a), LastName(b))
  {
    var x := LastName(a);
    var y := LastName(b);
    Text.LessTrichotomy(x, y);
    if Text.Less(x, y) then -1
    else if Text.Less(y, x) then 1
    else 0
  }

  /** Swapping the arguments flips the comparator's sign. */
  lemma CompareAntisymmetric(a: string, b: string)
    ensures Compare(a, b) == -Compare(b, a)
  {
    Text.LessTrichotomy(LastName(a), LastName(b));
  }

  /** "Not after" is transitive, as a sort comparator must be. */
  lemma CompareTransitive(a: string, b: string, c: string)
    requires Compare(a, b) <= 0 && Compare(b, c) <= 0
    ensures Compare(a, c) <= 0
  {
    var x, y, z := LastName(a), LastName(b), LastName(c);
    Text.LessTrichotomy(x, y);
    Text.LessTrichotomy(y, z);
    Text.LessTrichotomy(x, z);
    if Text.Less(x, y) && Text.Less(y, z) {
      Text.LessTransitive(x, y, z);
    }
  }

  /* ------------------------------------------------------------------ */
  /* Stable sort by last name                                           */
  /* ------------------------------------------------------------------ */

  /** No name's last name comes after the next one's. */
  ghost predicate SortedByLastName(s: seq<string>) {
    forall i :: 0 <= i < |s| - 1 ==> Compare(s[i], s[i + 1]) <= 0
  }

  /** Insert `x` before the first name whose last name is not before its
      own, so that `x` precedes every name it ties with. */
  function InsertByLastName(x: string, t: seq<string>): (r: seq<string>)
    ensures |r| == |t| + 1
    ensures multiset(r) == multiset(t) + multiset{x}
    ensures r[0] == x || (|t| > 0 && r[0] == t[0])
  {
    if |t| == 0 || Compare(x, t[0]) <= 0 then [x] + t
    else
      assert t == [t[0]] + t[1..];
      [t[0]] + InsertByLastName(x, t[1..])
  }

  /** Inserting into a sorted list keeps it sorted. */
  lemma {:induction false} InsertSorted(x: string, t: seq<string>)
    requires SortedByLastName(t)
    ensures SortedByLastName(InsertByLastName(x, t))
  {
    if |t| > 0 && Compare(x, t[0]) > 0 {
      CompareAntisymmetric(x, t[0]);
      var rest := InsertByLastName(x, t[1..]);
      assert SortedByLastName(t[1..]) by {
        forall i | 0 <= i < |t[1..]| - 1 ensures Compare(t[1..][i], t[1..][i + 1]) <= 0 {
          assert t[1..][i] == t[i + 1] && t[1..][i + 1] == t[i + 2];
        }
      }
      InsertSorted(x, t[1..]);
      var r := [t[0]] + rest;
      assert InsertByLastName(x, t) == r;
      forall i | 0 <= i < |r| - 1 ensures Compare(r[i], r[i + 1]) <= 0 {
        if i > 0 {
          assert r[i] == rest[i - 1] && r[i + 1] == rest[i];
        } else if |t| > 1 {
          assert t[1..][0] == t[1];
        }
      }
    }
  }

  /** Insertion sort from the back, as for the ranking. */
  function SortByLastName(s: seq<string>): (r: seq<string>)
    ensures |r| == |s|
    ensures multiset(r) == multiset(s)
    ensures SortedByLastName(r)
  {
    if |s| == 0 then []
    else
      assert s == [s[0]] + s[1..];
      InsertSorted(s[0], SortByLastName(s[1..]));
      InsertByLastName(s[0], SortByLastName(s[1..]))
  }

  /** The names of `s` whose last name is `k`, in order. */
  function WithLastName(s: seq<string>, k: string): seq<string> {
    if |s| == 0 then []
    else (if LastName(s[0]) == k then [s[0]] else []) + WithLastName(s[1..], k)
  }

  lemma {:induction false} InsertWithLastName(x: string, t: seq<string>, k: string)
    ensures WithLastName(InsertByLastName(x, t), k)
         == (if LastName(x) == k then [x] else []) + WithLastName(t, k)
  {
    var r := InsertByLastName(x, t);
    if |t| == 0 || Compare(x, t[0]) <= 0 {
      assert r[1..] == t;
    } else {
      assert r[1..] == InsertByLastName(x, t[1..]);
      InsertWithLastName(x, t[1..], k);
      assert LastName(t[0]) != LastName(x);
    }
  }

  /** The sort is stable: for every last name, the names carrying it
      appear in the output in the same order as in the input. */
  lemma {:induction false} SortStable(s: seq<string>, k: string)
    ensures WithLastName(SortByLastName(s), k) == WithLastName(s, k)
  {
    if |s| > 0 {
      SortStable(s[1..], k);
      InsertWithLastName(s[0], SortByLastName(s[1..]), k);
    }
  }

  /** Adjacent order extends to every pair. */
  lemma {:induction false} SortedAllPairs(s: seq<string>)
    requires SortedByLastName(s)
    ensures forall i, j :: 0 <= i < j < |s| ==> Compare(s[i], s[j]) <= 0
  {
    if |s| > 1 {
      SortedAllPairs(s[1..]);
      forall i, j | 0 <= i < j < |s| ensures Compare(s[i], s[j]) <= 0 {
        if 0 < i {
          assert s[i] == s[1..][i - 1] && s[j] == s[1..][j - 1];
        } else if 1 < j {
          assert s[1] == s[1..][0] && s[j] == s[1..][j - 1];
          CompareTransitive(s[0], s[1], s[j]);
        }
      }
    }
  }

  /* ------------------------------------------------------------------ */
  /* The list                                                           */
  /* ------------------------------------------------------------------ */

  /** The display names pushed while enumerating `logins`. A profile
      already in the cache is read and its name pushed at once; a login
      without a cached profile is fetched first, and its name is pushed
      only after the list has been sorted and printed, so it is missing
      from the printed list. */
  function Collect(logins: seq<string>, cache: map<string, Profile>): seq<string> {
    if |logins| == 0 then []
    else
      (if logins[0] in cache then [DisplayName(cache[logins[0]])] else [])
      + Collect(logins[1..], cache)
  }

  /** The printed list: the collected names sorted by last name. */
  function Acknowledge(logins: seq<string>, cache: map<string, Profile>): (r: seq<string>)
    ensures multiset(r) == multiset(Collect(logins, cache))
    ensures SortedByLastName(r)
  {
    SortByLastName(Collect(logins, cache))
  }

  /** With every profile cached, one name is pushed per login, in
      enumeration order. */
  lemma {:induction false} CollectAllCached(logins: seq<string>, cache: map<string, Profile>)
    requires forall i :: 0 <= i < |logins| ==> logins[i] in cache
    ensures |Collect(logins, cache)| == |logins|
    ensures forall i :: 0 <= i < |logins| ==>
              Collect(logins, cache)[i] == DisplayName(cache[logins[i]])
  {
    if |logins| > 0 {
      assert logins[0] in cache;
      CollectAllCached(logins[1..], cache);
      forall i | 0 < i < |logins| ensures Collect(logins, cache)[i] == DisplayName(cache[logins[i]]) {
        assert logins[1..][i - 1] == logins[i];
      }
    }
  }

  /** Only cached logins contribute, each at most once per occurrence. */
  lemma {:induction false} CollectLength(logins: seq<string>, cache: map<string, Profile>)
    ensures |Collect(logins, cache)| <= |logins|
    ensures (exists i :: 0 <= i < |logins| && logins[i] !in cache) ==> |Collect(logins, cache)| < |logins|
  {
    if |logins| > 0 {
      CollectLength(logins[1..], cache);
      if exists i :: 0 <= i < |logins| && logins[i] !in cache {
        var i :| 0 <= i < |logins| && logins[i] !in cache;
        if i > 0 {
          assert logins[1..][i - 1] !in cache;
        }
      }
    }
  }

  /** The acknowledgements of a comment list: every tallied login,
      including one whose only comments were transcripts, contributes its
      display name once when its profile is cached. */
  function AcknowledgeComments(cs: seq<C.Comment>, cache: map<string, Profile>): seq<string> {
    Acknowledge(C.Aggregate(cs).order, cache)
  }

  /** With every profile cached, each login's name is listed. */
  lemma AcknowledgeLists(logins: seq<string>, cache: map<string, Profile>, i: nat)
    requires forall k :: 0 <= k < |logins| ==> logins[k] in cache
    requires i < |logins|
    ensures DisplayName(cache[logins[i]]) in Acknowledge(logins, cache)
  {
    CollectAllCached(logins, cache);
    assert Collect(logins, cache)[i] in multiset(Acknowledge(logins, cache));
  }

  /** Every listed name is the display name of one of the logins. */
  lemma AcknowledgeFrom(logins: seq<string>, cache: map<string, Profile>, n: string)
    requires forall k :: 0 <= k < |logins| ==> logins[k] in cache
    requires n in Acknowledge(logins, cache)
    ensures exists i :: 0 <= i < |logins| && n == DisplayName(cache[logins[i]])
  {
    CollectAllCached(logins, cache);
    var names := Collect(logins, cache);
    assert n in multiset(names);
    var i :| 0 <= i < |names| && names[i] == n;
  }

  /** With every commenter's profile cached, the list has one display
      name per commenting login (including one whose only comments were
      transcripts), no other names, and is in last-name order. */
  lemma AcknowledgeAllCommenters(cs: seq<C.Comment>, cache: map<string, Profile>)
    requires forall l :: l in C.Logins(cs) ==> l in cache
    ensures |AcknowledgeComments(cs, cache)| == |C.Aggregate(cs).order|
    ensures SortedByLastName(AcknowledgeComments(cs, cache))
    ensures forall l :: l in C.Logins(cs) ==> DisplayName(cache[l]) in AcknowledgeComments(cs, cache)
    ensures forall n :: n in AcknowledgeComments(cs, cache) ==>
              exists l :: l in C.Logins(cs) && n == DisplayName(cache[l])
  {
    var order := C.Aggregate(cs).order;
    C.AggregateMatches(cs);
    assert forall k :: 0 <= k < |order| ==> order[k] in cache;
    CollectAllCached(order, cache);
    forall l | l in C.Logins(cs) ensures DisplayName(cache[l]) in AcknowledgeComments(cs, cache) {
      var i :| 0 <= i < |order| && order[i] == l;
      AcknowledgeLists(order, cache, i);
    }
    forall n | n in AcknowledgeComments(cs, cache)
      ensures exists l :: l in C.Logins(cs) && n == DisplayName(cache[l])
    {
      AcknowledgeFrom(order, cache, n);
      var i :| 0 <= i < |order| && n == DisplayName(cache[order[i]]);
      assert order[i] in C.Logins(cs);
    }
  }

  /* ------------------------------------------------------------------ */
  /* Logins whose profile is not yet cached                             */
  /* ------------------------------------------------------------------ */

  /** As written, a commenter whose profile is not cached when the list
      is built is missing from it: the list is shorter than the tally. */
  lemma UncachedCommenterMissing(cs: seq<C.Comment>, cache: map<string, Profile>, l: string)
    requires l in C.Logins(cs) && l !in cache
    ensures |AcknowledgeComments(cs, cache)| < |C.Aggregate(cs).order|
  {
    var order := C.Aggregate(cs).order;
    C.AggregateMatches(cs);
    var i :| 0 <= i < |order| && order[i] == l;
    CollectLength(order, cache);
  }

  /** On a first run, with nothing cached, a user who commented gets no
      acknowledgement at all. */
  lemma FirstRunListsNobody()
    ensures AcknowledgeComments([C.Comment("a", "hi")], map[]) == []
  {
    var cs := [C.Comment("a", "hi")];
    assert cs[..0] == [];
    assert C.Aggregate(cs).order == ["a"];
    assert Collect(["a"], map[]) == [];
  }

  /** The profile cache after every missing profile has been fetched
      (`fetch` stands for the profile lookup on the hosting service) and
      stored. */
  function FetchMissing(logins: seq<string>, cache: map<string, Profile>, fetch: string -> Profile)
    : (r: map<string, Profile>)
    ensures forall l :: l in cache ==> l in r && r[l] == cache[l]
    ensures forall i :: 0 <= i < |logins| ==> logins[i] in r
  {
    if |logins| == 0 then cache
    else
      var l := logins[0];
      var r := FetchMissing(logins[1..], if l in cache then cache else cache[l := fetch(l)], fetch);
      assert forall i :: 1 <= i < |logins| ==> logins[i] == logins[1..][i - 1];
      r
  }

  /** The list built only after every profile fetch has completed. */
  function AcknowledgeAwaited(cs: seq<C.Comment>, cache: map<string, Profile>, fetch: string -> Profile)
    : seq<string>
  {
    AcknowledgeComments(cs, FetchMissing(C.Aggregate(cs).order, cache, fetch))
  }

  /** Awaiting the fetches lists every commenter: one display name per
      commenting login, taken from its cached profile when there is one
      and from the fetched profile otherwise, in last-name order. */
  lemma AcknowledgeAwaitedAll(cs: seq<C.Comment>, cache: map<string, Profile>, fetch: string -> Profile)
    ensures |AcknowledgeAwaited(cs, cache, fetch)| == |C.Aggregate(cs).order|
    ensures SortedByLastName(AcknowledgeAwaited(cs, cache, fetch))
    ensures forall l :: l in C.Logins(cs) && l in cache ==>
              DisplayName(cache[l]) in AcknowledgeAwaited(cs, cache, fetch)
    ensures forall l :: l in C.Logins(cs) && l !in cache ==>
              DisplayName(fetch(l)) in AcknowledgeAwaited(cs, cache, fetch)
    ensures forall n :: n in AcknowledgeAwaited(cs, cache, fetch) ==>
              exists l :: l in C.Logins(cs) && n == DisplayName(if l in cache then cache[l] else fetch(l))
  {
    var full := FilledCache(cs, cache, fetch);
    AcknowledgeAllCommenters(cs, full);
  }

  /** The filled cache holds every commenter: the cached profile when
      there was one, the fetched profile otherwise. */
  lemma FilledCache(cs: seq<C.Comment>, cache: map<string, Profile>, fetch: string -> Profile)
    returns (full: map<string, Profile>)
    ensures full == FetchMissing(C.Aggregate(cs).order, cache, fetch)
    ensures forall l :: l in C.Logins(cs) ==> l in full
    ensures forall l :: l in C.Logins(cs) && l in cache ==> full[l] == cache[l]
    ensures forall l :: l in C.Logins(cs) && l !in cache ==> full[l] == fetch(l)
  {
    var order := C.Aggregate(cs).order;
    C.AggregateMatches(cs);
    full := FetchMissing(order, cache, fetch);
    forall l | l in C.Logins(cs) && l !in cache ensures full[l] == fetch(l) {
      var i :| 0 <= i < |order| && order[i] == l;
      FetchMissingFetched(order, cache, fetch, i);
    }
  }

  /** A login missing from the cache ends up with its fetched profile. */
  lemma {:induction false} FetchMissingFetched(logins: seq<string>, cache: map<string, Profile>,
                                               fetch: string -> Profile, i: nat)
    requires i < |logins| && logins[i] !in cache
    ensures FetchMissing(logins, cache, fetch)[logins[i]] == fetch(logins[i])
  {
    var l := logins[0];
    var next := if l in cache then cache else cache[l := fetch(l)];
    if i == 0 {
      assert next[l] == fetch(l);
    } else {
      assert logins[1..][i - 1] == logins[i];
      if logins[i] in next {
        assert logins[i] == l;
        assert next[l] == fetch(l);
      } else {
        FetchMissingFetched(logins[1..], next, fetch, i - 1);
      }
    }
  }
}
