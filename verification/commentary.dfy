/**
 The commentary tally: a left fold over the repository's issue comments,
 in the order they were fetched, into a per-login record of how many
 comments the user wrote and how many code units those comments hold.
 Comments carrying the meeting-transcript marker are not counted, but
 their author is still entered into the tally (with zero counts if they
 have nothing else).

 The tally is a JavaScript object, so besides its map it keeps the order
 in which keys were created; that order is what later enumerations of
 the object see. Being a plain object, it also answers every name of
 `Object.prototype` through inheritance, so a login spelled like one of
 those names never gets an entry of its own.
 */
module Commentary {
  import Text

  /** An issue comment: its author's login and its body text. */
  datatype Comment = Comment(login: string, body: string)

  /** Per-user figures: counted comments and their total body length. */
  datatype Stat = Stat(comments: nat, commentBytes: nat)

  /** The tally object: its keys in creation order and its entries. */
  datatype Tally = Tally(order: seq<string>, stats: map<string, Stat>)

  /** Text whose presence marks a comment as a posted meeting transcript. */
  const TranscriptMarker: string := "View the transcript"

  predicate IsTranscript(c: Comment) {
    Text.Contains(c.body, TranscriptMarker)
  }

  /** The key order lists every key of the map once and nothing else. */
  ghost predicate Valid(t: Tally) {
    && (forall i, j :: 0 <= i < j < |t.order| ==> t.order[i] != t.order[j])
    && (forall l :: l in t.stats <==> l in t.order)
  }

  const Empty: Tally := Tally([], map[])

  /** The property names a plain object inherits from `Object.prototype`.
      Looking one of them up on the tally yields the inherited value, never
      `undefined`. */
  const Inherited: set<string> := {
    "__defineGetter__", "__defineSetter__", "__lookupGetter__", "__lookupSetter__",
    "__proto__", "constructor", "hasOwnProperty", "isPrototypeOf",
    "propertyIsEnumerable", "toLocaleString", "toString", "valueOf"
  }

  /** The key a comment by `login` can add to the tally: none when the
      name is inherited. */
  function OwnKey(login: string): set<string> {
    if login in Inherited then {} else {login}
  }

  /** One iteration of the comment loop: create the author's entry if it
      is missing, then, unless the body is a transcript, count the
      comment and its length. For an inherited name the lookup is never
      `undefined`, so no entry is created, and the counting updates land
      on the inherited object instead of the tally. */
  function Step(t: Tally, c: Comment): (r: Tally)
    ensures r.stats.Keys == t.stats.Keys + OwnKey(c.login)
    ensures c.login in Inherited ==> r == t
    ensures forall l :: l in t.stats && l != c.login ==> r.stats[l] == t.stats[l]
  {
    if c.login in Inherited then t
    else
      var seen :=
        if c.login in t.stats then t
        else Tally(t.order + [c.login], t.stats[c.login := Stat(0, 0)]);
      if IsTranscript(c) then seen
      else
        var s := seen.stats[c.login];
        Tally(seen.order, seen.stats[c.login := Stat(s.comments + 1, s.commentBytes + |c.body|)])
  }

  /** The whole loop: a left fold of `Step` over the comments. */
  function Aggregate(cs: seq<Comment>): Tally {
    if |cs| == 0 then Empty
    else Step(Aggregate(cs[..|cs| - 1]), cs[|cs| - 1])
  }

  /* ------------------------------------------------------------------ */
  /* Reference definitions, by recursion from the front                 */
  /* ------------------------------------------------------------------ */

  /** The logins that wrote at least one of the comments. */
  ghost function Authors(cs: seq<Comment>): set<string> {
    set i | 0 <= i < |cs| :: cs[i].login
  }

  /** The authors that can be keys of the tally. */
  ghost function Logins(cs: seq<Comment>): set<string> {
    Authors(cs) - Inherited
  }

  /** Comment `c` counts toward `login`. */
  predicate Counts(c: Comment, login: string) {
    c.login == login && !IsTranscript(c)
  }

  /** How many comments count toward `login`. */
  function CountOf(cs: seq<Comment>, login: string): nat {
    if |cs| == 0 then 0
    else (if Counts(cs[0], login) then 1 else 0) + CountOf(cs[1..], login)
  }

  /** The total body length of the comments that count toward `login`. */
  function BytesOf(cs: seq<Comment>, login: string): nat {
    if |cs| == 0 then 0
    else (if Counts(cs[0], login) then |cs[0].body| else 0) + BytesOf(cs[1..], login)
  }

  /** Position of `login`'s first comment, or `|cs|` if it wrote none. */
  function FirstIndex(cs: seq<Comment>, login: string): nat {
    if |cs| == 0 then 0
    else if cs[0].login == login then 0
    else 1 + FirstIndex(cs[1..], login)
  }

  /* ------------------------------------------------------------------ */
  /* Facts about the reference definitions                              */
  /* ------------------------------------------------------------------ */

  lemma {:induction false} CountOfConcat(a: seq<Comment>, b: seq<Comment>, login: string)
    ensures CountOf(a + b, login) == CountOf(a, login) + CountOf(b, login)
    ensures BytesOf(a + b, login) == BytesOf(a, login) + BytesOf(b, login)
  {
    if |a| == 0 {
      assert a + b == b;
    } else {
      assert (a + b)[1..] == a[1..] + b;
      CountOfConcat(a[1..], b, login);
    }
  }

  /** A login with no counted comment has nothing counted in bytes either. */
  lemma {:induction false} NoCountNoBytes(cs: seq<Comment>, login: string)
    requires CountOf(cs, login) == 0
    ensures BytesOf(cs, login) == 0
  {
    if |cs| > 0 {
      NoCountNoBytes(cs[1..], login);
    }
  }

  /** A login all of whose comments are transcripts counts nothing. */
  lemma {:induction false} OnlyTranscriptsCountNothing(cs: seq<Comment>, login: string)
    requires forall i :: 0 <= i < |cs| && cs[i].login == login ==> IsTranscript(cs[i])
    ensures CountOf(cs, login) == 0 && BytesOf(cs, login) == 0
  {
    if |cs| > 0 {
      assert cs[0].login == login ==> IsTranscript(cs[0]);
      OnlyTranscriptsCountNothing(cs[1..], login);
    }
  }

  lemma {:induction false} FirstIndexBound(cs: seq<Comment>, login: string)
    ensures FirstIndex(cs, login) <= |cs|
    ensures FirstIndex(cs, login) < |cs| <==> login in Authors(cs)
    ensures FirstIndex(cs, login) < |cs| ==> cs[FirstIndex(cs, login)].login == login
  {
    if |cs| > 0 {
      FirstIndexBound(cs[1..], login);
      if cs[0].login != login {
        if login in Authors(cs) {
          var i :| 0 <= i < |cs| && cs[i].login == login;
          assert cs[1..][i - 1].login == login;
        }
        if login in Authors(cs[1..]) {
          var i :| 0 <= i < |cs| - 1 && cs[1..][i].login == login;
          assert cs[i + 1].login == login;
        }
      }
    }
  }

  /** Appending a comment does not move any login's first comment. */
  lemma {:induction false} FirstIndexSnoc(cs: seq<Comment>, c: Comment, login: string)
    requires FirstIndex(cs, login) < |cs|
    ensures FirstIndex(cs + [c], login) == FirstIndex(cs, login)
  {
    if cs[0].login != login {
      assert (cs + [c])[1..] == cs[1..] + [c];
      FirstIndexSnoc(cs[1..], c, login);
    }
  }

  /** A login first seen in the appended comment has that comment's index. */
  lemma {:induction false} FirstIndexSnocNew(cs: seq<Comment>, c: Comment)
    requires FirstIndex(cs, c.login) == |cs|
    ensures FirstIndex(cs + [c], c.login) == |cs|
  {
    if |cs| > 0 {
      assert (cs + [c])[1..] == cs[1..] + [c];
      FirstIndexSnocNew(cs[1..], c);
    }
  }

  /* ------------------------------------------------------------------ */
  /* The fold agrees with the reference                                 */
  /* ------------------------------------------------------------------ */

  /** Each step keeps the key order in step with the map. */
  lemma StepValid(t: Tally, c: Comment)
    requires Valid(t)
    ensures Valid(Step(t, c))
  {
  }

  lemma LoginsSnoc(cs: seq<Comment>, c: Comment)
    ensures Authors(cs + [c]) == Authors(cs) + {c.login}
    ensures Logins(cs + [c]) == Logins(cs) + OwnKey(c.login)
  {
    var cs' := cs + [c];
    forall l | l in Authors(cs') ensures l in Authors(cs) + {c.login} {
      var i :| 0 <= i < |cs'| && cs'[i].login == l;
      if i < |cs| {
        assert cs[i].login == l;
      }
    }
    forall l | l in Authors(cs) ensures l in Authors(cs') {
      var i :| 0 <= i < |cs| && cs[i].login == l;
      assert cs'[i].login == l;
    }
    assert cs'[|cs|].login == c.login;
  }

  /** The entry a step leaves for the comment's author: the previous
      entry, or zeros for a new author, plus the comment unless it is a
      transcript. */
  lemma StepAuthor(t: Tally, c: Comment)
    requires c.login !in Inherited
    ensures var before := if c.login in t.stats then t.stats[c.login] else Stat(0, 0);
            Step(t, c).stats[c.login]
            == if IsTranscript(c) then before
               else Stat(before.comments + 1, before.commentBytes + |c.body|)
  {
  }

  /** The entry a step leaves for `login` agrees with the reference
      counts over the longer input, given that the tally before the step
      agreed with them over the shorter one. */
  lemma StepMatches(t: Tally, cs: seq<Comment>, c: Comment, login: string)
    requires login in t.stats <==> login in Logins(cs)
    requires login in t.stats ==> t.stats[login] == Stat(CountOf(cs, login), BytesOf(cs, login))
    requires login in Step(t, c).stats
    requires login !in Inherited
    ensures Step(t, c).stats[login] == Stat(CountOf(cs + [c], login), BytesOf(cs + [c], login))
  {
    CountOfConcat(cs, [c], login);
    assert [c][1..] == [];
    if login != c.login {
      assert Step(t, c).stats[login] == t.stats[login];
    } else {
      StepAuthor(t, c);
      if login !in t.stats {
        OnlyTranscriptsCountNothing(cs, login);
      }
    }
  }

  /** The tally has exactly one key per commenting login, its key order
      lists each once, and every entry holds that login's counted
      comments and their total length. */
  lemma {:induction false} AggregateMatches(cs: seq<Comment>)
    ensures Valid(Aggregate(cs))
    ensures Aggregate(cs).stats.Keys == Logins(cs)
    ensures forall l :: l in Aggregate(cs).stats ==>
              Aggregate(cs).stats[l] == Stat(CountOf(cs, l), BytesOf(cs, l))
  {
    if |cs| > 0 {
      var init := cs[..|cs| - 1];
      var c := cs[|cs| - 1];
      assert cs == init + [c];
      AggregateMatches(init);
      var t := Step(Aggregate(init), c);
      assert Aggregate(cs) == t;
      StepValid(Aggregate(init), c);
      LoginsSnoc(init, c);
      forall l | l in t.stats
        ensures t.stats[l] == Stat(CountOf(cs, l), BytesOf(cs, l))
      {
        StepMatches(Aggregate(init), init, c, l);
      }
    }
  }

  /** Every login of `o` commented in `cs`, and the positions of their
      first comments grow along `o`. */
  ghost predicate OrderedByFirst(cs: seq<Comment>, o: seq<string>) {
    && (forall i :: 0 <= i < |o| ==> FirstIndex(cs, o[i]) < |cs|)
    && (forall i, j :: 0 <= i < j < |o| ==> FirstIndex(cs, o[i]) < FirstIndex(cs, o[j]))
  }

  lemma OrderedSnoc(cs: seq<Comment>, c: Comment, o: seq<string>)
    requires OrderedByFirst(cs, o)
    ensures OrderedByFirst(cs + [c], o)
  {
    forall i | 0 <= i < |o| ensures FirstIndex(cs + [c], o[i]) == FirstIndex(cs, o[i]) {
      FirstIndexSnoc(cs, c, o[i]);
    }
  }

  lemma OrderedSnocNew(cs: seq<Comment>, c: Comment, o: seq<string>)
    requires OrderedByFirst(cs, o)
    requires c.login !in Authors(cs)
    ensures OrderedByFirst(cs + [c], o + [c.login])
  {
    OrderedSnoc(cs, c, o);
    FirstIndexBound(cs, c.login);
    FirstIndexSnocNew(cs, c);
    var cs', o' := cs + [c], o + [c.login];
    forall i, j | 0 <= i < j < |o'| ensures FirstIndex(cs', o'[i]) < FirstIndex(cs', o'[j]) {
      assert o'[i] == o[i];
      if j < |o| {
        assert o'[j] == o[j];
      } else {
        FirstIndexSnoc(cs, c, o[i]);
      }
    }
  }

  /** The key order is the order of each login's first comment: the
      position of every listed login's first comment grows along it. */
  lemma {:induction false} AggregateOrder(cs: seq<Comment>)
    ensures OrderedByFirst(cs, Aggregate(cs).order)
  {
    if |cs| > 0 {
      var init := cs[..|cs| - 1];
      var c := cs[|cs| - 1];
      AggregateOrder(init);
      AggregateMatches(init);
      assert cs == init + [c];
      var o := Aggregate(init).order;
      if c.login !in Inherited && c.login !in Aggregate(init).stats {
        assert Aggregate(cs).order == o + [c.login];
        OrderedSnocNew(init, c, o);
      } else {
        assert Aggregate(cs).order == o;
        OrderedSnoc(init, c, o);
      }
    }
  }

  /* ------------------------------------------------------------------ */
  /* Transcript comments                                                */
  /* ------------------------------------------------------------------ */

  /** A transcript comment at the end of the input changes no entry; at
      most it creates a zero entry for an author not seen before. */
  lemma TranscriptAppended(cs: seq<Comment>, c: Comment)
    requires IsTranscript(c)
    ensures Aggregate(cs + [c]).stats.Keys == Aggregate(cs).stats.Keys + OwnKey(c.login)
    ensures forall l :: l in Aggregate(cs).stats ==>
              Aggregate(cs + [c]).stats[l] == Aggregate(cs).stats[l]
    ensures c.login !in Inherited && c.login !in Aggregate(cs).stats ==>
              Aggregate(cs + [c]).stats[c.login] == Stat(0, 0)
  {
    assert (cs + [c])[..|cs|] == cs;
  }

  /** Inserting a transcript comment anywhere in the input changes no
      entry; at most it creates a zero entry for its author. */
  lemma TranscriptInserted(cs: seq<Comment>, k: nat, c: Comment)
    requires k <= |cs|
    requires IsTranscript(c)
    ensures Aggregate(cs[..k] + [c] + cs[k..]).stats.Keys == Aggregate(cs).stats.Keys + OwnKey(c.login)
    ensures forall l :: l in Aggregate(cs).stats ==>
              Aggregate(cs[..k] + [c] + cs[k..]).stats[l] == Aggregate(cs).stats[l]
    ensures c.login !in Inherited && c.login !in Aggregate(cs).stats ==>
              Aggregate(cs[..k] + [c] + cs[k..]).stats[c.login] == Stat(0, 0)
  {
    var cs' := cs[..k] + [c] + cs[k..];
    AggregateMatches(cs);
    AggregateMatches(cs');
    LoginsInsert(cs, k, c);
    forall l ensures CountOf(cs', l) == CountOf(cs, l) && BytesOf(cs', l) == BytesOf(cs, l) {
      InsertTranscriptCounts(cs, k, c, l);
    }
    if c.login !in Inherited && c.login !in Aggregate(cs).stats {
      OnlyTranscriptsCountNothing(cs, c.login);
    }
  }

  lemma LoginsInsert(cs: seq<Comment>, k: nat, c: Comment)
    requires k <= |cs|
    ensures Authors(cs[..k] + [c] + cs[k..]) == Authors(cs) + {c.login}
    ensures Logins(cs[..k] + [c] + cs[k..]) == Logins(cs) + OwnKey(c.login)
  {
    var cs' := cs[..k] + [c] + cs[k..];
    forall l | l in Authors(cs') ensures l in Authors(cs) + {c.login} {
      var i :| 0 <= i < |cs'| && cs'[i].login == l;
      if i < k {
        assert cs[i].login == l;
      } else if i > k {
        assert cs[i - 1].login == l;
      }
    }
    forall l | l in Authors(cs) ensures l in Authors(cs') {
      var i :| 0 <= i < |cs| && cs[i].login == l;
      if i < k {
        assert cs'[i].login == l;
      } else {
        assert cs'[i + 1].login == l;
      }
    }
    assert cs'[k].login == c.login;
  }

  /** A transcript comment inserted anywhere adds nothing to any count. */
  lemma InsertTranscriptCounts(cs: seq<Comment>, k: nat, c: Comment, login: string)
    requires k <= |cs|
    requires IsTranscript(c)
    ensures CountOf(cs[..k] + [c] + cs[k..], login) == CountOf(cs, login)
    ensures BytesOf(cs[..k] + [c] + cs[k..], login) == BytesOf(cs, login)
  {
    assert cs == cs[..k] + cs[k..];
    CountOfConcat(cs[..k] + [c], cs[k..], login);
    CountOfConcat(cs[..k], [c], login);
    CountOfConcat(cs[..k], cs[k..], login);
    assert [c][1..] == [];
  }

  /** An entry with no counted comment has no counted bytes, so a zero
      comment count always means an all-zero entry. */
  lemma ZeroCommentsZeroBytes(cs: seq<Comment>, login: string)
    requires login in Aggregate(cs).stats
    requires Aggregate(cs).stats[login].comments == 0
    ensures Aggregate(cs).stats[login].commentBytes == 0
  {
    AggregateMatches(cs);
    NoCountNoBytes(cs, login);
  }

  /* ------------------------------------------------------------------ */
  /* Inherited names                                                    */
  /* ------------------------------------------------------------------ */

  /** A comment by a login spelled like an inherited property leaves the
      tally exactly as it was. */
  lemma InheritedIgnored(cs: seq<Comment>, c: Comment)
    requires c.login in Inherited
    ensures Aggregate(cs + [c]) == Aggregate(cs)
  {
    assert (cs + [c])[..|cs|] == cs;
  }

  /** No inherited name is ever a key of the tally, however often it
      comments; every other author is. */
  lemma InheritedNeverKeys(cs: seq<Comment>)
    ensures forall i :: 0 <= i < |cs| && cs[i].login in Inherited ==> cs[i].login !in Aggregate(cs).stats
    ensures forall i :: 0 <= i < |cs| && cs[i].login !in Inherited ==> cs[i].login in Aggregate(cs).stats
  {
    AggregateMatches(cs);
  }
}
