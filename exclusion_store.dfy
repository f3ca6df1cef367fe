/** The saved exclusion lists: one row per user, holding the tokens joined
    with commas (`save_user_exclusions` / `load_user_exclusions`), and the
    save, load and re-parse cycle the two buttons drive. */
module ExclusionStore {
  import opened Seqs
  import opened PyStr
  import opened Negation

  /** `e.strip()` is truthy. */
  predicate NonBlank(e: string)
  {
    Strip(e) != ""
  }

  predicate NonEmpty(e: string)
  {
    e != ""
  }

  /** `[e.strip() for e in text.split(",") if e.strip()]` */
  function ParseStored(text: string): seq<string>
  {
    MapSeq(Strip, Filter(NonBlank, Split(text, ',')))
  }

  /** A parsed row holds non-empty, stripped, comma-free tokens. */
  lemma ParseStoredShape(text: string)
    ensures forall k :: 0 <= k < |ParseStored(text)| ==>
      ParseStored(text)[k] != "" && IsStripped(ParseStored(text)[k]) && ',' !in ParseStored(text)[k]
  {
    var pieces := Split(text, ',');
    var kept := Filter(NonBlank, pieces);
    forall k | 0 <= k < |kept| ensures ',' !in Strip(kept[k]) && NonBlank(kept[k]) {
      FilterMembership(NonBlank, pieces, kept[k]);
      StripKeepsChar(kept[k], ',');
    }
  }

  /** What `load_user_exclusions` returns for a given table: the stored row
      parsed, or `[]` when the user has none. */
  function Lookup(table: map<string, string>, userId: string): seq<string>
  {
    if userId in table then ParseStored(table[userId]) else []
  }

  /** The `exclusions` table (`user_id` primary key, `exclusions` text). */
  class Store {
    var table: map<string, string>

    constructor ()
      ensures table == map[]
    {
      table := map[];
    }

    /** `INSERT ... ON CONFLICT(user_id) DO UPDATE`: an upsert of the joined list. */
    method Save(userId: string, exclusionList: seq<string>)
      modifies this
      ensures table == old(table)[userId := Join(",", exclusionList)]
    {
      var joined := Join(",", exclusionList);
      table := table[userId := joined];
    }

    /** `SELECT ... WHERE user_id = ?` and the parse of the row. */
    method Load(userId: string) returns (r: seq<string>)
      ensures r == Lookup(table, userId)
      ensures userId !in table ==> r == []
      ensures forall k :: 0 <= k < |r| ==> r[k] != "" && IsStripped(r[k]) && ',' !in r[k]
    {
      if userId in table {
        r := ParseStored(table[userId]);
        ParseStoredShape(table[userId]);
      } else {
        r := [];
      }
    }

    /** `saved_filters_exist = bool(load_user_exclusions(user_email))` */
    method HasSaved(userId: string) returns (b: bool)
      ensures b <==> Lookup(table, userId) != []
      ensures b ==> userId in table
    {
      var loaded := Load(userId);
      b := loaded != [];
    }
  }

  lemma {:induction false} StripBlankFilter(toks: seq<string>)
    requires forall k :: 0 <= k < |toks| ==> IsStripped(toks[k])
    ensures MapSeq(Strip, Filter(NonBlank, toks)) == Filter(NonEmpty, toks)
    decreases |toks|
  {
    if toks != [] {
      StripBlankFilter(toks[1..]);
      var head := if NonBlank(toks[0]) then [toks[0]] else [];
      MapSeqAppend(Strip, head, Filter(NonBlank, toks[1..]));
    }
  }

  /** Loading a row written by a save gives back the saved tokens with the
      empty ones removed, for comma-free stripped tokens such as the parser's. */
  lemma LoadOfSaved(toks: seq<string>)
    requires forall k :: 0 <= k < |toks| ==> IsStripped(toks[k]) && ',' !in toks[k]
    ensures ParseStored(Join(",", toks)) == Filter(NonEmpty, toks)
  {
    if toks == [] {
      assert Split("", ',') == [""];
      assert !NonBlank("");
      assert Filter(NonBlank, [""]) == [];
    } else {
      SplitOfJoin(toks, ',');
      StripBlankFilter(toks);
    }
  }

  /** After a save for `userId`, a load for that user returns what was saved
      (less empty tokens). */
  lemma LoadAfterSave(table: map<string, string>, userId: string, toks: seq<string>)
    requires forall k :: 0 <= k < |toks| ==> IsStripped(toks[k]) && ',' !in toks[k]
    ensures Lookup(table[userId := Join(",", toks)], userId) == Filter(NonEmpty, toks)
  {
    LoadOfSaved(toks);
  }

  /** A save for one user leaves every other user's list as it was. */
  lemma SaveLeavesOthers(table: map<string, string>, userId: string, other: string, toks: seq<string>)
    requires other != userId
    ensures Lookup(table[userId := Join(",", toks)], other) == Lookup(table, other)
  {
  }

  /** The second of two saves for a user is the one a load sees. */
  lemma LastSaveWins(table: map<string, string>, userId: string, first: seq<string>, second: seq<string>)
    ensures Lookup(table[userId := Join(",", first)][userId := Join(",", second)], userId)
         == Lookup(table[userId := Join(",", second)], userId)
  {
  }

  /** The whole cycle: parse the hide box, save, load, write the loaded list
      back into the box, parse again. When no token begins with `-`, the
      second parse gives the first one's non-empty tokens. */
  lemma SaveLoadReparse(table: map<string, string>, userId: string, input: string)
    requires forall k :: 0 <= k < |ParseNegatives(input)| ==>
      ParseNegatives(input)[k] == [] || ParseNegatives(input)[k][0] != '-'
    ensures var toks := ParseNegatives(input);
      var loaded := Lookup(table[userId := Join(",", toks)], userId);
      loaded == Filter(NonEmpty, toks) && ParseNegatives(Serialise(loaded)) == loaded
  {
    var toks := ParseNegatives(input);
    ParseNegativesShape(input);
    LoadAfterSave(table, userId, toks);
    var loaded := Filter(NonEmpty, toks);
    forall k | 0 <= k < |loaded| ensures IsReloadable(loaded[k]) {
      FilterMembership(NonEmpty, toks, loaded[k]);
    }
    ReparseSerialised(loaded);
  }

  /** A single non-empty, stripped, comma-free token is saved and loaded
      unchanged. */
  lemma SingleTokenStored(table: map<string, string>, userId: string, t: string)
    requires t != "" && IsStripped(t) && ',' !in t
    ensures Lookup(table[userId := Join(",", [t])], userId) == [t]
  {
    assert Join(",", [t]) == t;
    SplitOfPiece(t, ',');
    assert NonBlank(t);
    FilterKeepsAll(NonBlank, [t]);
    assert ParseStored(t) == MapSeq(Strip, [t]);
  }

  /** A dashed token is saved and loaded unchanged. */
  lemma DashedTokenStored(table: map<string, string>, userId: string, e: string)
    requires IsReloadable(e)
    ensures Lookup(table[userId := Join(",", [Dash(e)])], userId) == [Dash(e)]
  {
    var d := Dash(e);
    DashedPiece(e);
    assert IsStripped(d);
    SingleTokenStored(table, userId, d);
  }

  /** The load button writes a dashed token back as `--e`. */
  lemma DashedTokenReloaded(e: string)
    requires IsReloadable(e) && e != []
    ensures ParseNegatives(Serialise([Dash(e)])) == [e]
  {
    assert Serialise([Dash(e)]) == "--" + e by {
      assert MapSeq(Dash, [Dash(e)]) == ["-" + ("-" + e)];
      assert "-" + ("-" + e) == "--" + e;
    }
    assert ParseNegatives("--" + e) == [e] by {
      DoubleDashCleaned(e);
      ParseOnePiece("--" + e);
    }
  }

  /** A token that itself begins with `-` (typed as `- -x`) does not survive
      the cycle: it is saved and loaded as `-x`, but the load button writes
      `--x` back into the box, which parses as `x`. */
  lemma DashTokenChangesOnReload(table: map<string, string>, userId: string, e: string)
    requires IsReloadable(e) && e != []
    ensures ParseNegatives("- " + Dash(e)) == [Dash(e)]
    ensures Lookup(table[userId := Join(",", [Dash(e)])], userId) == [Dash(e)]
    ensures ParseNegatives(Serialise([Dash(e)])) == [e]
  {
    SpacedDashPiece(e);
    SpacedDashCleaned(e);
    ParseOnePiece("- " + Dash(e));
    DashedTokenStored(table, userId, e);
    DashedTokenReloaded(e);
  }

  /** The empty token that a bare `-` gives, which hides every event, does
      not survive a save: the stored row is blank and loads as `[]`. */
  lemma EmptyTokenLostOnSave(table: map<string, string>, userId: string)
    ensures ParseNegatives("-") == [""]
    ensures Lookup(table[userId := Join(",", ParseNegatives("-"))], userId) == []
  {
    BareDashIsEmptyToken();
    LoadAfterSave(table, userId, [""]);
    assert Filter(NonEmpty, [""]) == [];
  }

  lemma SavedSyncDemo()
    ensures Lookup(map["u1" := Join(",", ["sync", "demo"])], "u1") == ["sync", "demo"]
  {
    assert IsStripped("sync") && IsStripped("demo");
    LoadAfterSave(map[], "u1", ["sync", "demo"]);
    FilterKeepsAll(NonEmpty, ["sync", "demo"]);
  }

  /** Saving `["sync", "demo"]` for `u1` in a new store and loading it gives
      the list back; a user who never saved gets `[]` and no saved flag. */
  method SaveLoadScenario() returns (loaded: seq<string>, unknown: seq<string>, unknownHasSaved: bool)
    ensures loaded == ["sync", "demo"]
    ensures unknown == [] && !unknownHasSaved
  {
    var store := new Store();
    store.Save("u1", ["sync", "demo"]);
    SavedSyncDemo();
    loaded := store.Load("u1");
    unknown := store.Load("unknown");
    unknownHasSaved := store.HasSaved("unknown");
  }
}
