/** The hide expression typed by the user: parsing it into exclusion tokens
    (the `negatives` comprehension) and writing saved tokens back into it
    (the "Load saved filters" button). */
module Negation {
  import opened Seqs
  import opened PyStr

  /** A well-formed exclusion token: what the parser can produce. */
  predicate IsToken(t: string)
  {
    IsStripped(t) && IsLower(t) && ',' !in t
  }

  /** `token.strip().startswith('-')` */
  predicate IsNegPiece(piece: string)
  {
    var t := Strip(piece);
    |t| > 0 && t[0] == '-'
  }

  /** `token.strip().lstrip('-').strip().lower()`: every leading `-` goes,
      not only the first. */
  function CleanToken(piece: string): string
  {
    Lower(Strip(LStripChar(Strip(piece), '-')))
  }

  /** A cleaned piece is stripped and lower-case, and it is a token when the
      piece has no comma. */
  lemma CleanTokenShape(piece: string)
    ensures IsStripped(CleanToken(piece)) && IsLower(CleanToken(piece))
    ensures ',' !in piece ==> IsToken(CleanToken(piece))
  {
    var v := Strip(LStripChar(Strip(piece), '-'));
    CommaFreeCleaned(piece);
    LowerToken(v);
  }

  lemma CommaFreeCleaned(piece: string)
    ensures ',' !in piece ==> ',' !in Strip(LStripChar(Strip(piece), '-'))
  {
    if ',' !in piece {
      var a := Strip(piece);
      StripKeepsChar(piece, ',');
      var b := LStripChar(a, '-');
      assert ',' !in b;
      StripKeepsChar(b, ',');
    }
  }

  /** The comprehension over already-split pieces. */
  function Negatives(pieces: seq<string>): seq<string>
  {
    MapSeq(CleanToken, Filter(IsNegPiece, pieces))
  }

  /** The `negatives` list for a hide expression. */
  function ParseNegatives(input: string): seq<string>
  {
    Negatives(Split(input, ','))
  }

  /** Never more tokens than comma pieces, and every token is stripped,
      lower-case and comma-free. */
  lemma ParseNegativesShape(input: string)
    ensures |ParseNegatives(input)| <= |Split(input, ',')|
    ensures forall k :: 0 <= k < |ParseNegatives(input)| ==> IsToken(ParseNegatives(input)[k])
  {
    var pieces := Split(input, ',');
    var negs := Filter(IsNegPiece, pieces);
    forall k | 0 <= k < |negs| ensures IsToken(CleanToken(negs[k])) {
      FilterMembership(IsNegPiece, pieces, negs[k]);
      CleanTokenShape(negs[k]);
    }
  }

  /** `t` is the cleaned form of one of `pieces` that starts with `-`. */
  predicate CleanedFrom(pieces: seq<string>, t: string)
  {
    exists piece :: piece in pieces && IsNegPiece(piece) && t == CleanToken(piece)
  }

  lemma TokensComeFromDashPieces(input: string)
    ensures forall k :: 0 <= k < |ParseNegatives(input)| ==>
      CleanedFrom(Split(input, ','), ParseNegatives(input)[k])
  {
    var pieces := Split(input, ',');
    var r := MapSeq(CleanToken, Filter(IsNegPiece, pieces));
    forall k | 0 <= k < |r|
      ensures CleanedFrom(pieces, r[k])
    {
      MapFilterOrigin(CleanToken, IsNegPiece, pieces, k);
      var piece := Filter(IsNegPiece, pieces)[k];
      assert piece in pieces && IsNegPiece(piece) && r[k] == CleanToken(piece);
    }
  }

  lemma NegativesAppend(a: seq<string>, b: seq<string>)
    ensures Negatives(a + b) == Negatives(a) + Negatives(b)
  {
    FilterAppend(IsNegPiece, a, b);
    MapSeqAppend(CleanToken, Filter(IsNegPiece, a), Filter(IsNegPiece, b));
  }

  /** A piece without a leading `-` contributes nothing: taking it out leaves the tokens unchanged. */
  lemma PlainPieceIgnored(a: seq<string>, piece: string, b: seq<string>)
    requires !IsNegPiece(piece)
    ensures Negatives(a + [piece] + b) == Negatives(a + b)
  {
    assert Negatives([piece]) == [] by {
      assert Filter(IsNegPiece, [piece]) == [];
    }
    NegativesAppend(a + [piece], b);
    NegativesAppend(a, [piece]);
    NegativesAppend(a, b);
  }

  /** `f"-{e}"` */
  function Dash(e: string): string
  {
    "-" + e
  }

  /** `",".join(f"-{e}" for e in loaded)` */
  function Serialise(loaded: seq<string>): string
  {
    Join(",", MapSeq(Dash, loaded))
  }

  /** A token the button can write back and the parser read again unchanged:
      it must not itself begin with `-`, which `lstrip('-')` would remove. */
  predicate IsReloadable(e: string)
  {
    IsToken(e) && (e == [] || e[0] != '-')
  }

  lemma DashedPiece(e: string)
    requires IsReloadable(e)
    ensures IsNegPiece(Dash(e)) && CleanToken(Dash(e)) == e && ',' !in Dash(e)
  {
    var d := Dash(e);
    assert IsStripped(d);
    assert d[1..] == e;
    assert LStripChar(d, '-') == e;
    assert Strip(e) == e;
  }

  lemma CleanDashed(loaded: seq<string>)
    requires forall k :: 0 <= k < |loaded| ==> IsReloadable(loaded[k])
    ensures Negatives(MapSeq(Dash, loaded)) == loaded
  {
    var dashed := MapSeq(Dash, loaded);
    forall k | 0 <= k < |dashed| ensures IsNegPiece(dashed[k]) {
      DashedPiece(loaded[k]);
    }
    FilterKeepsAll(IsNegPiece, dashed);
    var r := MapSeq(CleanToken, dashed);
    forall k | 0 <= k < |r| ensures r[k] == loaded[k] {
      DashedPiece(loaded[k]);
    }
  }

  /** Re-parsing what "Load saved filters" writes into the box gives back the
      loaded tokens. */
  lemma ReparseSerialised(loaded: seq<string>)
    requires forall k :: 0 <= k < |loaded| ==> IsReloadable(loaded[k])
    ensures ParseNegatives(Serialise(loaded)) == loaded
  {
    var dashed := MapSeq(Dash, loaded);
    if loaded == [] {
      assert Serialise(loaded) == "" && Split("", ',') == [""];
      assert !IsNegPiece("");
      assert Filter(IsNegPiece, [""]) == [];
    } else {
      forall k | 0 <= k < |dashed| ensures ',' !in dashed[k] {
        DashedPiece(loaded[k]);
      }
      SplitOfJoin(dashed, ',');
      CleanDashed(loaded);
    }
  }

  /** Three comma pieces, the middle one without a leading `-`: only the
      outer two give tokens. */
  lemma ParseThree(a: string, b: string, c: string)
    requires ',' !in a && ',' !in b && ',' !in c
    requires IsNegPiece(a) && !IsNegPiece(b) && IsNegPiece(c)
    ensures ParseNegatives(a + "," + b + "," + c) == [CleanToken(a), CleanToken(c)]
  {
    SplitThree(a, b, c);
    NegativesThree(a, b, c);
  }

  /** Three split pieces, the middle one without a leading `-`: only the
      outer two give tokens. */
  lemma NegativesThree(a: string, b: string, c: string)
    requires IsNegPiece(a) && !IsNegPiece(b) && IsNegPiece(c)
    ensures Negatives([a, b, c]) == [CleanToken(a), CleanToken(c)]
  {
    assert Negatives([a, b, c]) == Negatives([a, c]) by {
      assert [a] + [b] + [c] == [a, b, c];
      assert [a] + [c] == [a, c];
      PlainPieceIgnored([a], b, [c]);
    }
    FilterKeepsAll(IsNegPiece, [a, c]);
  }

  lemma SplitThree(a: string, b: string, c: string)
    requires ',' !in a && ',' !in b && ',' !in c
    ensures Split(a + "," + b + "," + c, ',') == [a, b, c]
  {
    assert Join(",", [c]) == c;
    assert Join(",", [b, c]) == b + "," + c;
    assert Join(",", [a, b, c]) == a + "," + b + "," + c;
    SplitOfJoin([a, b, c], ',');
  }

  /** A comma-free piece that starts with `-` (after stripping) parses to
      its own cleaned form. */
  lemma ParseOnePiece(piece: string)
    requires IsNegPiece(piece) && ',' !in piece
    ensures ParseNegatives(piece) == [CleanToken(piece)]
  {
    SplitOfPiece(piece, ',');
    FilterKeepsAll(IsNegPiece, [piece]);
  }

  /** A bare `-` yields the empty token, which hides every event. */
  lemma BareDashIsEmptyToken()
    ensures ParseNegatives("-") == [""]
  {
    assert IsNegPiece("-");
    ParseOnePiece("-");
    assert LStripChar("-", '-') == "";
  }

  /** `lstrip('-')` removes every leading dash, not only the first. */
  lemma DoubleDashCleaned(e: string)
    requires IsReloadable(e) && e != []
    ensures IsNegPiece("--" + e) && ',' !in "--" + e
    ensures CleanToken("--" + e) == e
  {
    var d := "--" + e;
    assert d[|d| - 1] == e[|e| - 1];
    assert IsStripped(d);
    assert d[1..] == "-" + e && d[1..][1..] == e;
    assert LStripChar(e, '-') == e;
    assert LStripChar(d[1..], '-') == e;
    assert LStripChar(d, '-') == e;
    assert Strip(e) == e;
  }

  /** `- -x` is a comma-free piece that counts as an exclusion. */
  lemma SpacedDashPiece(e: string)
    requires IsReloadable(e) && e != []
    ensures IsStripped("- " + Dash(e)) && IsStripped(Dash(e))
    ensures IsNegPiece("- " + Dash(e)) && ',' !in "- " + Dash(e)
  {
    var d := Dash(e);
    var s := "- " + d;
    assert s[|s| - 1] == e[|e| - 1] && d[|d| - 1] == e[|e| - 1];
    assert Strip(s) == s;
  }

  lemma SpacedDashLStrip(d: string)
    ensures LStripChar("- " + d, '-') == " " + d
  {
    var s := "- " + d;
    assert s[1..] == " " + d && (" " + d)[0] == ' ';
  }

  /** A token typed as `- -x` keeps its inner dash: the space stops
      `lstrip('-')`, and the second strip only removes the space. */
  lemma SpacedDashCleaned(e: string)
    requires IsReloadable(e) && e != []
    ensures CleanToken("- " + Dash(e)) == Dash(e)
  {
    var d := Dash(e);
    var s := "- " + d;
    assert Strip(s) == s by {
      SpacedDashPiece(e);
    }
    assert LStripChar(s, '-') == " " + d by {
      SpacedDashLStrip(d);
    }
    assert Strip(" " + d) == d by {
      SpacedDashPiece(e);
      StripLeadingSpace(d);
    }
    assert Lower(d) == d by {
      LowerCons('-', e);
    }
  }

  /** A single `-token` parses to that token. */
  lemma ParseSingleToken(e: string)
    requires IsReloadable(e)
    ensures ParseNegatives("-" + e) == [e]
  {
    DashedPiece(e);
    ParseOnePiece(Dash(e));
  }
}
