/**
  The decision part of `edit_contact` once the console is stripped away: the
  user types an id and eight answers; the id must have eight characters, the
  id search must return exactly one contact, and then the list is updated
  with the merged record.

  `EditAsWritten` follows the program as it stands: the lookup ignores case
  but the update that follows compares the typed id exactly, so an id typed in
  the wrong case is "found" and then nothing is written. `Edit` is the
  corrected flow, updating by the id of the contact the search found; it is
  the one the rest of the model treats as the edit operation.
 */
module EditFlow {
  import opened Text
  import opened Contacts
  import opened Identity
  import opened Query
  import opened Mutation

  datatype EditError =
    | InvalidFormat   // "Invalid format id."
    | NotFound        // "Contact not found.": zero or several contacts matched

  datatype EditOutcome =
    | Updated(contacts: seq<Contact>)
    | Rejected(error: EditError)

  /** The edit as the program performs it: update by the id exactly as typed. */
  function EditAsWritten(cs: seq<Contact>, typed: string, e: Entry): (r: EditOutcome)
    ensures r == Rejected(InvalidFormat) <==> |typed| != IdLength
    ensures r == Rejected(NotFound) <==> |typed| == IdLength && |SearchById(cs, typed)| != 1
    ensures r.Updated? ==> |r.contacts| == |cs|
    ensures r.Updated? ==> forall i :: 0 <= i < |cs| && cs[i].id != typed ==> r.contacts[i] == cs[i]
  {
    if !ValidateId(typed) then Rejected(InvalidFormat)
    else
      var hits := SearchById(cs, typed);
      if |hits| != 1 then Rejected(NotFound)
      else Updated(Update(cs, typed, Merge(hits[0], e)))
  }

  /** The corrected edit: update the record the search found, by its stored id. */
  function Edit(cs: seq<Contact>, typed: string, e: Entry): (r: EditOutcome)
    ensures r == Rejected(InvalidFormat) <==> |typed| != IdLength
    ensures r == Rejected(NotFound) <==> |typed| == IdLength && |SearchById(cs, typed)| != 1
    ensures r.Updated? ==> |r.contacts| == |cs|
  {
    if !ValidateId(typed) then Rejected(InvalidFormat)
    else
      var hits := SearchById(cs, typed);
      if |hits| != 1 then Rejected(NotFound)
      else Updated(Update(cs, hits[0].id, Merge(hits[0], e)))
  }

  /** The one position whose id matches `typed` ignoring case, when the search found exactly one contact. */
  lemma FoundPosition(cs: seq<Contact>, typed: string) returns (i: int)
    requires |SearchById(cs, typed)| == 1
    ensures 0 <= i < |cs| && cs[i] == SearchById(cs, typed)[0]
    ensures forall j :: 0 <= j < |cs| && j != i ==> !IdMatches(cs[j], typed)
    ensures forall j :: 0 <= j < |cs| && j != i ==> cs[j].id != cs[i].id
  {
    var p := c => IdMatches(c, typed);
    var idx := FilterPositions(cs, p);
    i := idx[0];
    forall j | 0 <= j < |cs| && j != i
      ensures !IdMatches(cs[j], typed)
    {
      if IdMatches(cs[j], typed) {
        SingleHitIsUnique(cs, p, i, j);
      }
    }
  }

  /**
    The corrected edit changes exactly the contact the search found: that one
    record becomes the merge of it with the answers, every other record stays.
   */
  lemma EditChangesOnlyFoundRecord(cs: seq<Contact>, typed: string, e: Entry)
    requires Edit(cs, typed, e).Updated?
    ensures var r := Edit(cs, typed, e).contacts;
      exists i :: 0 <= i < |cs| && IdMatches(cs[i], typed) && r[i] == Merge(cs[i], e) &&
        forall j :: 0 <= j < |cs| && j != i ==> r[j] == cs[j]
  {
    var i := FoundPosition(cs, typed);
    var r := Edit(cs, typed, e).contacts;
    assert IdMatches(cs[i], typed);
    assert r[i] == Merge(cs[i], e);
  }

  /** Leaving every answer blank in the corrected edit writes back the list unchanged. */
  lemma EditBlankIsNoOp(cs: seq<Contact>, typed: string)
    requires Edit(cs, typed, Blank).Updated?
    ensures Edit(cs, typed, Blank).contacts == cs
  {
    var i := FoundPosition(cs, typed);
    MergeBlankIsIdentity(cs[i]);
    UpdateWithSameRecordIsNoOp(cs, cs[i].id, cs[i]);
  }

  /** When the id is typed exactly as stored, the program's edit and the corrected edit agree. */
  lemma EditAgreesWhenExact(cs: seq<Contact>, typed: string, e: Entry, k: int)
    requires 0 <= k < |cs| && cs[k].id == typed
    ensures EditAsWritten(cs, typed, e) == Edit(cs, typed, e)
  {
    if ValidateId(typed) && |SearchById(cs, typed)| == 1 {
      var i := FoundPosition(cs, typed);
      assert IdMatches(cs[k], typed);
      assert k == i;
    }
  }

  /**
    As written, an id that is found only because case is ignored is accepted
    and then updates nothing: the outcome is `Updated` with the list as it was.
   */
  lemma EditAsWrittenLosesCaseMismatch(cs: seq<Contact>, typed: string, e: Entry)
    requires |typed| == IdLength && |SearchById(cs, typed)| == 1
    requires SearchById(cs, typed)[0].id != typed
    ensures EditAsWritten(cs, typed, e) == Updated(cs)
  {
  }

  /**
    A concrete case: the stored id is "abcdef12", the user types "ABCDEF12"
    and a new name. The program accepts the edit and keeps the old name; the
    corrected edit stores the new one.
   */
  lemma CaseMismatchExample()
    ensures var c := Contact("Ana", "Diaz", "", "", "555", "", "", "", "abcdef12");
      var e := Entry("Bea", "", "", "", "", "", "", "");
      && EditAsWritten([c], "ABCDEF12", e) == Updated([c])
      && Edit([c], "ABCDEF12", e) == Updated([c.(name := "Bea")])
  {
  }
}
