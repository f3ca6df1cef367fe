/** The three stages run one after the other on a concrete input. */
module Pipeline {
  import opened Wrappers
  import opened Seqs
  import opened PyStr
  import opened EventFilter
  import opened Negation
  import opened Display

  function WeeklySync(now: int): RawEvent
  {
    RawEvent(EventStart(Some(Instant(now + SecondsPerDay)), None), Some("Weekly Sync"), None, Some(["a@x.com"]))
  }

  function DemoDay(now: int): RawEvent
  {
    RawEvent(EventStart(Some(Instant(now + SecondsPerDay)), None), Some("Demo Day"), None, Some([]))
  }

  lemma SyncParsed()
    ensures ParseNegatives("-sync") == ["sync"]
  {
    assert IsReloadable("sync");
    ParseSingleToken("sync");
  }

  lemma SyncLower()
    ensures Lower("Sync") == "sync"
  {
  }

  lemma SyncInWeeklySync()
    ensures Contains(Lower("Weekly Sync"), "sync")
  {
    assert OccursAt("Weekly Sync", "Sync", 7);
    LowerOccurs("Weekly Sync", "Sync", 7);
    SyncLower();
    ContainsAt(Lower("Weekly Sync"), "sync");
  }

  /** Two events in the window, the first attended and the second not: with
      the attendee toggle on, the pass keeps only the first. */
  lemma AttendedThenUnattended(e1: RawEvent, e2: RawEvent, now: int, days: int)
    requires StartOf(e1).Success? && InWindow(StartOf(e1).value, now, days) && AttendeesOf(e1) != []
    requires StartOf(e2).Success? && AttendeesOf(e2) == []
    ensures Flagged([e1, e2], now, days, true) == Success([ToRow(e1, StartOf(e1).value)])
  {
    var events := [e1, e2];
    assert events[..0] == [];
    FlaggedStep(events, 0, StartOf(e1).value, now, days, true);
    assert [] + [ToRow(e1, StartOf(e1).value)] == [ToRow(e1, StartOf(e1).value)];
    FlaggedStep(events, 1, StartOf(e2).value, now, days, true);
    assert events[..2] == events;
  }

  lemma HiddenRowNotShown(row: Row, tok: string)
    requires HiddenBy(tok, row)
    ensures Visible([row], [tok]) == []
  {
    assert Hidden(row, [tok]);
    FilterDropsAll(ShownFn([tok]), [row]);
  }

  /** ... and a token found in the first one's summary then hides it too, so nothing is shown. */
  lemma NothingShown(e1: RawEvent, e2: RawEvent, now: int, days: int, input: string, tok: string)
    requires StartOf(e1).Success? && InWindow(StartOf(e1).value, now, days) && AttendeesOf(e1) != []
    requires StartOf(e2).Success? && AttendeesOf(e2) == []
    requires ParseNegatives(input) == [tok]
    requires e1.summary.Some? && Contains(Lower(e1.summary.value), tok)
    ensures var f := Flagged([e1, e2], now, days, true);
      f.Success? && Visible(f.value, ParseNegatives(input)) == []
  {
    AttendedThenUnattended(e1, e2, now, days);
    HiddenByRawFields(tok, e1, StartOf(e1).value);
    HiddenRowNotShown(ToRow(e1, StartOf(e1).value), tok);
  }

  /** The concrete case: "Weekly Sync" (attended) and "Demo Day" (no attendees),
      a 7-day window, the toggle on and the hide text `-sync` show nothing. */
  lemma SyncAndDemoScenario(now: int)
    ensures var f := Flagged([WeeklySync(now), DemoDay(now)], now, 7, true);
      f.Success? && Visible(f.value, ParseNegatives("-sync")) == []
  {
    InWindowIff(now + SecondsPerDay, now, 7);
    SyncParsed();
    SyncInWeeklySync();
    NothingShown(WeeklySync(now), DemoDay(now), now, 7, "-sync", "sync");
  }

  /** The three pieces of the hide text `-Sync, notaflag, -Demo `, one by
      one: the first gives `sync`, the last gives `demo` once its surrounding
      spaces are stripped, and the middle one has no leading `-`. */
  lemma SyncPieceCleaned()
    ensures IsNegPiece("-Sync") && CleanToken("-Sync") == "sync"
  {
    assert IsStripped("-Sync");
    assert "-Sync"[1..] == "Sync";
    assert LStripChar("-Sync", '-') == "Sync";
    assert IsStripped("Sync");
    SyncLower();
  }

  lemma DemoPieceStripped()
    ensures Strip(" -Demo ") == "-Demo"
  {
    assert " -Demo "[1..] == "-Demo ";
    assert LStrip(" -Demo ") == "-Demo ";
    assert "-Demo "[..5] == "-Demo";
    assert RStrip("-Demo ") == "-Demo";
  }

  lemma DemoPieceCleaned()
    ensures IsNegPiece(" -Demo ") && CleanToken(" -Demo ") == "demo"
  {
    DemoPieceStripped();
    assert "-Demo"[1..] == "Demo";
    assert LStripChar("-Demo", '-') == "Demo";
    assert IsStripped("Demo");
    assert Lower("Demo") == "demo";
  }

  lemma PlainPieceIsPlain()
    ensures !IsNegPiece(" notaflag")
  {
    assert " notaflag"[1..] == "notaflag";
    assert LStrip(" notaflag") == "notaflag";
    assert IsStripped("notaflag");
  }

  /** The whole hide text `-Sync, notaflag, -Demo ` gives the tokens `sync`
      and `demo`; the middle piece is dropped. */
  lemma ParseExample()
    ensures ParseNegatives("-Sync, notaflag, -Demo ") == ["sync", "demo"]
  {
    ExampleSplit();
    ExampleNegatives();
  }

  lemma ExampleSplit()
    ensures Split("-Sync, notaflag, -Demo ", ',') == ["-Sync", " notaflag", " -Demo "]
  {
    assert "-Sync, notaflag, -Demo " == "-Sync" + "," + " notaflag" + "," + " -Demo ";
    SplitThree("-Sync", " notaflag", " -Demo ");
  }

  lemma ExampleNegatives()
    ensures Negatives(["-Sync", " notaflag", " -Demo "]) == ["sync", "demo"]
  {
    SyncPieceCleaned();
    PlainPieceIsPlain();
    DemoPieceCleaned();
    NegativesThree("-Sync", " notaflag", " -Demo ");
  }
}
