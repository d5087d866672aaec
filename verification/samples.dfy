/**
 Worked examples of the report on small inputs.
 */
module Samples {
  import C = Commentary
  import R = Ranking
  import A = Acknowledgements
  import Text

  /** `a` says "hi", then posts a transcript; `b` posts ten characters. */
  const Comments: seq<C.Comment> := [
    C.Comment("a", "hi"),
    C.Comment("a", "View the transcript of..."),
    C.Comment("b", "1234567890")
  ]

  lemma SampleTranscripts()
    ensures !C.IsTranscript(Comments[0])
    ensures C.IsTranscript(Comments[1])
    ensures !C.IsTranscript(Comments[2])
  {
  }

  /** `a` has one counted comment of 2 code units and `b` one of 10; the
      keys were created in the order `a`, `b`. */
  lemma SampleTally()
    ensures C.Aggregate(Comments) == C.Tally(["a", "b"], map["a" := C.Stat(1, 2), "b" := C.Stat(1, 10)])
  {
    var cs := Comments;
    SampleTranscripts();
    assert cs[..2][..1] == cs[..1] && cs[..1][..0] == [];
    assert C.Aggregate(cs[..1][..0]) == C.Empty;
    var t1 := C.Aggregate(cs[..1]);
    assert t1 == C.Step(C.Empty, cs[0]);
    assert t1 == C.Tally(["a"], map["a" := C.Stat(1, 2)]);
    var t2 := C.Aggregate(cs[..2]);
    assert t2 == C.Step(t1, cs[1]) == t1;
    assert C.Aggregate(cs) == C.Step(t2, cs[2]);
  }

  /** U+1F600 is the two code units D83D DE00: its body length is 2, and it
      orders before U+FFFD, whose single unit is larger than D83D. */
  lemma SampleAstral()
    ensures var smile: seq<Text.CodeUnit> := [0xD83D, 0xDE00];
            var other: seq<Text.CodeUnit> := [0xFFFD];
            |Text.Encode(smile)| == 2 && Text.Less(Text.Encode(smile), Text.Encode(other))
  {
    var smile: seq<Text.CodeUnit> := [0xD83D, 0xDE00];
    var other: seq<Text.CodeUnit> := [0xFFFD];
    Text.EncodeLess(smile, other);
  }

  /** A user named like an inherited property gets no entry, and the
      others are tallied as usual. */
  lemma SampleInheritedLogin()
    ensures C.Aggregate([C.Comment("constructor", "hi"), C.Comment("a", "hey")])
            == C.Tally(["a"], map["a" := C.Stat(1, 3)])
  {
    var cs := [C.Comment("constructor", "hi"), C.Comment("a", "hey")];
    assert cs[..1][..0] == [];
    assert C.Aggregate(cs[..1]) == C.Step(C.Empty, cs[0]) == C.Empty;
    assert !C.IsTranscript(cs[1]);
  }

  /** Both users score 1; `a` is ranked first because it commented first. */
  lemma SampleRank()
    ensures R.Rank(Comments) == [R.Entry("a", 1, 2, 1), R.Entry("b", 1, 10, 1)]
  {
    SampleTally();
    var t := C.Aggregate(Comments);
    var ea, eb := R.Entry("a", 1, 2, 1), R.Entry("b", 1, 10, 1);
    var g := R.Gather(t);
    assert R.Rank(Comments) == R.SortByScore(g);
    assert |g| == 2;
    assert g[0] == R.MakeEntry("a", C.Stat(1, 2)) == ea;
    assert g[1] == R.MakeEntry("b", C.Stat(1, 10)) == eb;
    assert g == [ea, eb];
    SortPair(ea, eb);
  }

  /** Two records already in score order stay as they are. */
  lemma SortPair(x: R.Entry, y: R.Entry)
    requires x.score >= y.score
    ensures R.SortByScore([x, y]) == [x, y]
  {
    assert [x, y][1..] == [y];
    assert [y][1..] == [];
    assert R.SortByScore([y]) == R.InsertByScore(y, []) == [y];
  }

  /** An empty display name falls back to the login. */
  lemma SampleDisplayNames()
    ensures A.DisplayName(A.Profile("ada", A.Some(""))) == "ada"
    ensures A.DisplayName(A.Profile("ada", A.Some("Ada Lovelace"))) == "Ada Lovelace"
    ensures A.DisplayName(A.Profile("ada", A.None)) == "ada"
  {
  }

  lemma SampleLastNames()
    ensures A.LastName("Jane Doe") == "Doe"
    ensures A.LastName("Bob Ackerman") == "Ackerman"
  {
    Text.LastPieceIsSuffix("Jane Doe", ' ');
    Text.LastPieceIsSuffix("Bob Ackerman", ' ');
  }

  /** "Jane Doe" and "Bob Ackerman" are listed as "Bob Ackerman", "Jane Doe". */
  lemma SampleAcknowledgements()
    ensures A.SortByLastName(["Jane Doe", "Bob Ackerman"]) == ["Bob Ackerman", "Jane Doe"]
  {
    SampleLastNames();
    assert Text.Less("Ackerman", "Doe");
    assert A.Compare("Jane Doe", "Bob Ackerman") == 1;
    var s := ["Jane Doe", "Bob Ackerman"];
    assert s[1..] == ["Bob Ackerman"];
    assert ["Bob Ackerman"][1..] == [];
    assert A.SortByLastName(["Bob Ackerman"]) == ["Bob Ackerman"];
    assert A.InsertByLastName("Jane Doe", []) == ["Jane Doe"];
  }
}
