/** The final display list: the `flagged` rows no exclusion token matches. */
module Display {
  import opened Seqs
  import opened PyStr
  import opened EventFilter

  /** `neg in ev["Event"].lower() or neg in ev["Description"].lower()` */
  predicate HiddenBy(neg: string, row: Row)
  {
    Contains(Lower(row.event), neg) || Contains(Lower(row.description), neg)
  }

  /** `any(... for neg in negatives)` */
  predicate Hidden(row: Row, negatives: seq<string>)
  {
    exists neg :: neg in negatives && HiddenBy(neg, row)
  }

  function ShownFn(negatives: seq<string>): Row -> bool
  {
    row => !Hidden(row, negatives)
  }

  /** `display_events` */
  function Visible(flagged: seq<Row>, negatives: seq<string>): seq<Row>
  {
    Filter(ShownFn(negatives), flagged)
  }

  /** The display list keeps the order of `flagged` and only deletes rows. */
  lemma VisibleIsSubsequence(flagged: seq<Row>, negatives: seq<string>)
    ensures IsSubsequence(Visible(flagged, negatives), flagged)
  {
    FilterIsSubsequence(ShownFn(negatives), flagged);
  }

  /** A row is shown exactly when it is flagged and no token occurs in its
      lower-cased title or lower-cased description. */
  lemma VisibleMembership(flagged: seq<Row>, negatives: seq<string>, row: Row)
    ensures row in Visible(flagged, negatives) <==>
      row in flagged && forall neg :: neg in negatives ==> !HiddenBy(neg, row)
  {
    FilterMembership(ShownFn(negatives), flagged, row);
  }

  /** With no tokens every flagged row is shown. */
  lemma NoTokensShowAll(flagged: seq<Row>)
    ensures Visible(flagged, []) == flagged
  {
    FilterKeepsAll(ShownFn([]), flagged);
  }

  /** The empty token occurs in every string, so it hides every row. */
  lemma EmptyTokenHidesAll(flagged: seq<Row>, negatives: seq<string>)
    requires "" in negatives
    ensures Visible(flagged, negatives) == []
  {
    forall k | 0 <= k < |flagged| ensures Hidden(flagged[k], negatives) {
      assert HiddenBy("", flagged[k]);
    }
    FilterDropsAll(ShownFn(negatives), flagged);
  }

  /** Hiding again with the same tokens changes nothing. */
  lemma VisibleIdempotent(flagged: seq<Row>, negatives: seq<string>)
    ensures Visible(Visible(flagged, negatives), negatives) == Visible(flagged, negatives)
  {
    FilterIdempotent(ShownFn(negatives), flagged);
  }

  /** Title-casing the summary does not affect matching: a token hides the row
      of an event exactly when it occurs in the lower-cased summary or the
      lower-cased description of the raw event. */
  lemma HiddenByRawFields(neg: string, e: RawEvent, t: int)
    ensures HiddenBy(neg, ToRow(e, t)) <==>
      Contains(Lower(match e.summary case None => "" case Some(s) => s), neg)
      || Contains(Lower(match e.description case None => "" case Some(d) => d), neg)
  {
  }
}
