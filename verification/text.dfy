/**
 String helpers used by the commentary report: substring search
 (`includes`), splitting on one character (`split`), joining
 (`join`), the code-unit ordering of JavaScript's `<` on strings, and
 left padding (`padStart`). A JavaScript string is a sequence of UTF-16
 code units; it is modelled as the `seq<char>` that `Encode` makes of
 those units, one `char` per unit, keeping their order. No normalisation
 or case folding happens anywhere.
 */
module Text {

  /* ------------------------------------------------------------------ */
  /* Substring search                                                   */
  /* ------------------------------------------------------------------ */

  /** `m` occurs in `s` starting at index `i`. */
  ghost predicate OccursAt(s: string, m: string, i: nat) {
    i + |m| <= |s| && s[i..i + |m|] == m
  }

  /** `s.includes(m)`: scans the start positions of `s` left to right. */
  predicate Contains(s: string, m: string)
    decreases |s|
  {
    if |s| < |m| then false
    else if s[..|m|] == m then true
    else Contains(s[1..], m)
  }

  /** The scan finds `m` exactly when `m` occurs somewhere in `s`. */
  lemma {:induction false} ContainsIff(s: string, m: string)
    ensures Contains(s, m) <==> exists i: nat :: OccursAt(s, m, i)
    decreases |s|
  {
    if |s| < |m| {
      forall i: nat ensures !OccursAt(s, m, i) {
      }
    } else if s[..|m|] == m {
      assert OccursAt(s, m, 0);
    } else {
      ContainsIff(s[1..], m);
      if Contains(s, m) {
        var i: nat :| OccursAt(s[1..], m, i);
        assert s[1..][i..i + |m|] == s[i + 1..i + 1 + |m|];
        assert OccursAt(s, m, i + 1);
      } else {
        forall i: nat | OccursAt(s, m, i) ensures false {
          if i > 0 {
            assert s[1..][i - 1..i - 1 + |m|] == s[i..i + |m|];
            assert OccursAt(s[1..], m, i - 1);
          }
        }
      }
    }
  }

  /* ------------------------------------------------------------------ */
  /* split and join                                                     */
  /* ------------------------------------------------------------------ */

  /** `s.split(sep)` for a one-character separator: every separator ends
      one piece and starts the next, so the result is never empty and
      adjacent or trailing separators produce empty pieces. Defined by
      peeling the last character, so the last piece is built last. */
  function Split(s: string, sep: char): (r: seq<string>)
    ensures |r| >= 1
    ensures forall i :: 0 <= i < |r| ==> sep !in r[i]
  {
    if |s| == 0 then [""]
    else
      var init := Split(s[..|s| - 1], sep);
      var c := s[|s| - 1];
      if c == sep then init + [""]
      else init[..|init| - 1] + [init[|init| - 1] + [c]]
  }

  /** `parts.join(sep)`: the pieces with `sep` between neighbours. */
  function Join(parts: seq<string>, sep: string): string {
    if |parts| == 0 then ""
    else if |parts| == 1 then parts[0]
    else Join(parts[..|parts| - 1], sep) + sep + parts[|parts| - 1]
  }

  /** Joining the pieces of a split with the separator gives back the
      original string. */
  lemma {:induction false} JoinSplit(s: string, sep: char)
    ensures Join(Split(s, sep), [sep]) == s
    decreases |s|
  {
    if |s| > 0 {
      var s' := s[..|s| - 1];
      var init := Split(s', sep);
      var c := s[|s| - 1];
      JoinSplit(s', sep);
      assert s == s' + [c];
      if c == sep {
        JoinAppend(init, "", [sep]);
      } else {
        var k := |init| - 1;
        if k == 0 {
          assert Split(s, sep) == [init[0] + [c]];
        } else {
          var front := init[..k];
          assert init == front + [init[k]];
          assert Split(s, sep) == front + [init[k] + [c]];
          JoinAppend(front, init[k], [sep]);
          JoinAppend(front, init[k] + [c], [sep]);
        }
      }
    }
  }

  /** Joining with one more piece appends the separator and the piece. */
  lemma JoinAppend(parts: seq<string>, x: string, sep: string)
    requires |parts| >= 1
    ensures Join(parts + [x], sep) == Join(parts, sep) + sep + x
  {
    assert (parts + [x])[..|parts|] == parts;
  }

  /** Splitting text that contains no separator yields that text alone. */
  lemma {:induction false} SplitNoSeparator(x: string, sep: char)
    requires sep !in x
    ensures Split(x, sep) == [x]
    decreases |x|
  {
    if |x| > 0 {
      SplitNoSeparator(x[..|x| - 1], sep);
      assert x == x[..|x| - 1] + [x[|x| - 1]];
    }
  }

  /** Splitting `t + sep + x`, with no separator in `x`, splits `t` and
      then adds `x` as one more piece. */
  lemma {:induction false} SplitAppendPiece(t: string, sep: char, x: string)
    requires sep !in x
    ensures Split(t + [sep] + x, sep) == Split(t, sep) + [x]
    decreases |x|
  {
    if |x| == 0 {
      assert t + [sep] + x == t + [sep];
      assert (t + [sep])[..|t|] == t;
    } else {
      var x' := x[..|x| - 1];
      var d := x[|x| - 1];
      SplitAppendPiece(t, sep, x');
      var u := t + [sep] + x;
      assert u[..|u| - 1] == t + [sep] + x';
      assert u[|u| - 1] == d;
      var init := Split(t, sep) + [x'];
      assert init[..|init| - 1] == Split(t, sep);
      assert x' + [d] == x;
    }
  }

  /** Splitting a join of separator-free pieces gives back the pieces. */
  lemma {:induction false} SplitJoin(parts: seq<string>, sep: char)
    requires |parts| >= 1
    requires forall i :: 0 <= i < |parts| ==> sep !in parts[i]
    ensures Split(Join(parts, [sep]), sep) == parts
    decreases |parts|
  {
    if |parts| == 1 {
      SplitNoSeparator(parts[0], sep);
    } else {
      var init := parts[..|parts| - 1];
      SplitJoin(init, sep);
      SplitAppendPiece(Join(init, [sep]), sep, parts[|parts| - 1]);
      assert init + [parts[|parts| - 1]] == parts;
    }
  }

  /** The last piece of `s.split(sep)`. */
  function LastPiece(s: string, sep: char): string {
    var parts := Split(s, sep);
    parts[|parts| - 1]
  }

  /** The last piece is the longest suffix of `s` free of `sep`: it is a
      suffix, holds no separator, and is either all of `s` or preceded by
      a separator. */
  lemma {:induction false} LastPieceIsSuffix(s: string, sep: char)
    ensures |LastPiece(s, sep)| <= |s|
    ensures LastPiece(s, sep) == s[|s| - |LastPiece(s, sep)|..]
    ensures sep !in LastPiece(s, sep)
    ensures |LastPiece(s, sep)| < |s| ==> s[|s| - |LastPiece(s, sep)| - 1] == sep
    decreases |s|
  {
    if |s| > 0 {
      var s' := s[..|s| - 1];
      var c := s[|s| - 1];
      LastPieceIsSuffix(s', sep);
      var init := Split(s', sep);
      var k := |init| - 1;
      if c != sep {
        var r := init[..k] + [init[k] + [c]];
        assert LastPiece(s, sep) == init[k] + [c];
        var n := |init[k]|;
        assert s'[|s'| - n..] == init[k];
        assert s[|s| - (n + 1)..] == s'[|s'| - n..] + [c];
        if n + 1 < |s| {
          assert s[|s| - (n + 1) - 1] == s'[|s'| - n - 1];
        }
      }
    }
  }

  /* ------------------------------------------------------------------ */
  /* Code-unit ordering (JavaScript's `<` on strings)                   */
  /* ------------------------------------------------------------------ */

  /** `a < b` on JavaScript strings: the first differing code unit
      decides, and a proper prefix comes first. */
  predicate Less(a: string, b: string) {
    if |b| == 0 then false
    else if |a| == 0 then true
    else if a[0] != b[0] then a[0] < b[0]
    else Less(a[1..], b[1..])
  }

  /** Exactly one of `a < b`, `a == b`, `b < a` holds. */
  lemma {:induction false} LessTrichotomy(a: string, b: string)
    ensures a == b <==> !Less(a, b) && !Less(b, a)
    ensures !(Less(a, b) && Less(b, a))
  {
    if |a| > 0 && |b| > 0 && a[0] == b[0] {
      LessTrichotomy(a[1..], b[1..]);
      if a[1..] == b[1..] {
        assert a == [a[0]] + a[1..] && b == [b[0]] + b[1..];
      }
    }
  }

  /** `<` is transitive. */
  lemma {:induction false} LessTransitive(a: string, b: string, c: string)
    requires Less(a, b) && Less(b, c)
    ensures Less(a, c)
  {
    if |a| > 0 && a[0] == b[0] && b[0] == c[0] {
      LessTransitive(a[1..], b[1..], c[1..]);
    }
  }

  /* ------------------------------------------------------------------ */
  /* UTF-16 code units                                                  */
  /* ------------------------------------------------------------------ */

  /** One UTF-16 code unit, the element of a JavaScript string. */
  type CodeUnit = u: int | 0 <= u < 0x1_0000

  /** The `char` standing for code unit `u`. A Dafny `char` cannot be a
      surrogate, so units from the surrogate range up move past it by
      0x800; the units below it, which include all of ASCII, keep their
      value. */
  function UnitChar(u: CodeUnit): (c: char)
    ensures u < 0xD800 ==> c as int == u
    ensures 0xD800 <= u ==> c as int == u + 0x800
  {
    if u < 0xD800 then u as char else (u + 0x800) as char
  }

  /** The chars that stand for some code unit. */
  predicate IsUnitChar(c: char) {
    c as int < 0xD800 || 0xE000 <= c as int < 0x1_0800
  }

  /** The code unit a char stands for. */
  function CharUnit(c: char): (u: CodeUnit)
    requires IsUnitChar(c)
    ensures UnitChar(u) == c
  {
    if c as int < 0xD800 then c as int else c as int - 0x800
  }

  /** The encoding keeps the order of code units both ways. */
  lemma UnitCharOrder(u: CodeUnit, v: CodeUnit)
    ensures u < v <==> UnitChar(u) < UnitChar(v)
    ensures u == v <==> UnitChar(u) == UnitChar(v)
  {
  }

  /** The model of a JavaScript string given by its code units. */
  function Encode(units: seq<CodeUnit>): (s: string)
    ensures |s| == |units|
    ensures forall i :: 0 <= i < |units| ==> s[i] == UnitChar(units[i])
  {
    if |units| == 0 then "" else [UnitChar(units[0])] + Encode(units[1..])
  }

  /** The code units a modelled string stands for. */
  function Decode(s: string): (units: seq<CodeUnit>)
    requires forall i :: 0 <= i < |s| ==> IsUnitChar(s[i])
    ensures |units| == |s|
  {
    if |s| == 0 then [] else [CharUnit(s[0])] + Decode(s[1..])
  }

  /** Decoding an encoding gives back the code units. */
  lemma {:induction false} DecodeEncode(units: seq<CodeUnit>)
    ensures forall i :: 0 <= i < |units| ==> IsUnitChar(Encode(units)[i])
    ensures Decode(Encode(units)) == units
  {
    if |units| > 0 {
      DecodeEncode(units[1..]);
      assert Encode(units)[1..] == Encode(units[1..]);
    }
  }

  /** Encoding the units of a modelled string gives back the string. */
  lemma {:induction false} EncodeDecode(s: string)
    requires forall i :: 0 <= i < |s| ==> IsUnitChar(s[i])
    ensures Encode(Decode(s)) == s
  {
    if |s| > 0 {
      EncodeDecode(s[1..]);
      assert Decode(s)[1..] == Decode(s[1..]);
    }
  }

  /** JavaScript's `<` on strings, stated on their code units. */
  predicate UnitsLess(a: seq<CodeUnit>, b: seq<CodeUnit>) {
    if |b| == 0 then false
    else if |a| == 0 then true
    else if a[0] != b[0] then a[0] < b[0]
    else UnitsLess(a[1..], b[1..])
  }

  /** Comparing the modelled strings is comparing their code units. */
  lemma {:induction false} EncodeLess(a: seq<CodeUnit>, b: seq<CodeUnit>)
    ensures Less(Encode(a), Encode(b)) <==> UnitsLess(a, b)
  {
    if |a| > 0 && |b| > 0 {
      UnitCharOrder(a[0], b[0]);
      assert Encode(a)[1..] == Encode(a[1..]);
      assert Encode(b)[1..] == Encode(b[1..]);
      EncodeLess(a[1..], b[1..]);
    }
  }

  /** Distinct code-unit sequences have distinct models. */
  lemma EncodeInjective(a: seq<CodeUnit>, b: seq<CodeUnit>)
    ensures Encode(a) == Encode(b) <==> a == b
  {
    DecodeEncode(a);
    DecodeEncode(b);
  }

  /** Encoding commutes with taking a slice. */
  lemma EncodeSlice(s: seq<CodeUnit>, i: nat, j: nat)
    requires i <= j <= |s|
    ensures Encode(s)[i..j] == Encode(s[i..j])
  {
  }

  /** A piece of code units occurs at a position exactly when its model
      occurs there in the model of the whole. */
  lemma EncodeOccurs(s: seq<CodeUnit>, m: seq<CodeUnit>, i: nat)
    ensures OccursAt(Encode(s), Encode(m), i) <==> i + |m| <= |s| && s[i..i + |m|] == m
  {
    var e, f := Encode(s), Encode(m);
    if i + |m| <= |s| {
      var piece := s[i..i + |m|];
      EncodeSlice(s, i, i + |m|);
      EncodeInjective(piece, m);
      assert OccursAt(e, f, i) <==> Encode(piece) == f;
    } else {
      assert !OccursAt(e, f, i);
    }
  }

  /* ------------------------------------------------------------------ */
  /* padStart                                                           */
  /* ------------------------------------------------------------------ */

  /** `n` space characters. */
  function Spaces(n: nat): (r: string)
    ensures |r| == n
    ensures forall i :: 0 <= i < n ==> r[i] == ' '
  {
    if n == 0 then "" else " " + Spaces(n - 1)
  }

  /** `s.padStart(width, ' ')`. */
  function PadStart(s: string, width: nat): (r: string)
    ensures |r| == if |s| >= width then |s| else width
    ensures r[|r| - |s|..] == s
    ensures forall i :: 0 <= i < |r| - |s| ==> r[i] == ' '
    ensures |s| >= width ==> r == s
    ensures forall c :: c in r ==> c == ' ' || c in s
  {
    if |s| >= width then s else Spaces(width - |s|) + s
  }

  /** Padding to a width, then to a wider one, is padding to the wider
      width in one step. */
  lemma PadStartCompose(s: string, w1: nat, w2: nat)
    requires w1 <= w2
    ensures PadStart(PadStart(s, w1), w2) == PadStart(s, w2)
  {
    var p := PadStart(s, w1);
    var q := PadStart(p, w2);
    var r := PadStart(s, w2);
    assert |q| == |r|;
    forall i | 0 <= i < |q| ensures q[i] == r[i] {
      if i < |q| - |s| {
        if i >= |q| - |p| {
          assert q[i] == p[i - (|q| - |p|)];
        }
      } else {
        assert q[i] == s[i - (|q| - |s|)] by {
          assert q[|q| - |p|..] == p;
          assert p[|p| - |s|..] == s;
        }
      }
    }
  }

  /** Drops leading space characters: the reading of a padded cell. */
  function TrimStart(s: string): (r: string)
    ensures |r| <= |s| && r == s[|s| - |r|..]
    ensures |r| == 0 || r[0] != ' '
  {
    if |s| > 0 && s[0] == ' ' then TrimStart(s[1..]) else s
  }

  /** Trimming a padded string gives back the string, provided it does
      not itself start with a space. */
  lemma {:induction false} TrimPadStart(s: string, width: nat)
    requires |s| == 0 || s[0] != ' '
    ensures TrimStart(PadStart(s, width)) == s
  {
    if |s| < width {
      assert PadStart(s, width) == Spaces(width - |s|) + s;
      TrimSpaces(width - |s|, s);
    }
  }

  lemma {:induction false} TrimSpaces(n: nat, s: string)
    requires |s| == 0 || s[0] != ' '
    ensures TrimStart(Spaces(n) + s) == s
  {
    if n > 0 {
      var p := Spaces(n) + s;
      assert p == " " + (Spaces(n - 1) + s);
      assert p[0] == ' ' && p[1..] == Spaces(n - 1) + s;
      TrimSpaces(n - 1, s);
    }
  }
}
