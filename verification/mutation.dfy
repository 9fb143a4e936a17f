/**
  The changes the contact book makes to its list before saving it: delete the
  first record with a given id, overwrite every record with a given id, build
  an edited record from the values a user typed, and append a new contact.
 */
module Mutation {
  import opened Contacts
  import opened Identity

  /** No record of `cs` before position `k` carries exactly the id `id`. */
  ghost predicate NoIdBefore(cs: seq<Contact>, id: string, k: int)
    requires 0 <= k <= |cs|
  {
    forall j :: 0 <= j < k ==> cs[j].id != id
  }

  /** `delete_contact`: scan in order, remove the first record whose id equals `id` exactly, stop. */
  function Delete(cs: seq<Contact>, id: string): (r: seq<Contact>)
    ensures NoIdBefore(cs, id, |cs|) ==> r == cs
    ensures forall k :: 0 <= k < |cs| && cs[k].id == id && NoIdBefore(cs, id, k) ==>
      r == cs[..k] + cs[k + 1..]
    decreases |cs|
  {
    if |cs| == 0 then []
    else if cs[0].id == id then cs[1..]
    else
      var tail := cs[1..];
      var r := [cs[0]] + Delete(tail, id);
      DeleteStep(cs, id, Delete(tail, id));
      r
  }

  /** How `Delete`'s contract on the tail carries over once a non-matching head is put back in front. */
  lemma DeleteStep(cs: seq<Contact>, id: string, rt: seq<Contact>)
    requires |cs| > 0 && cs[0].id != id
    requires NoIdBefore(cs[1..], id, |cs| - 1) ==> rt == cs[1..]
    requires forall k :: 0 <= k < |cs| - 1 && cs[1..][k].id == id && NoIdBefore(cs[1..], id, k) ==>
      rt == cs[1..][..k] + cs[1..][k + 1..]
    ensures NoIdBefore(cs, id, |cs|) ==> [cs[0]] + rt == cs
    ensures forall k :: 0 <= k < |cs| && cs[k].id == id && NoIdBefore(cs, id, k) ==>
      [cs[0]] + rt == cs[..k] + cs[k + 1..]
  {
    var tail := cs[1..];
    if NoIdBefore(cs, id, |cs|) {
      assert NoIdBefore(tail, id, |tail|);
      assert [cs[0]] + tail == cs;
    }
    forall k | 0 <= k < |cs| && cs[k].id == id && NoIdBefore(cs, id, k)
      ensures [cs[0]] + rt == cs[..k] + cs[k + 1..]
    {
      assert k >= 1;
      NoIdBeforeTail(cs, id, k);
      DeleteStepAt(cs, rt, k);
    }
  }

  lemma NoIdBeforeTail(cs: seq<Contact>, id: string, k: int)
    requires 1 <= k <= |cs| && NoIdBefore(cs, id, k)
    ensures NoIdBefore(cs[1..], id, k - 1)
  {
  }

  lemma DeleteStepAt(cs: seq<Contact>, rt: seq<Contact>, k: int)
    requires 1 <= k < |cs| && rt == cs[1..][..k - 1] + cs[1..][k..]
    ensures [cs[0]] + rt == cs[..k] + cs[k + 1..]
  {
    assert cs[..k] == [cs[0]] + cs[1..][..k - 1];
    assert cs[k + 1..] == cs[1..][k..];
  }

  /** A delete that found its record shortens the list by one and keeps the others' order. */
  lemma DeleteRemovesFirstMatch(cs: seq<Contact>, id: string, k: int)
    requires 0 <= k < |cs| && cs[k].id == id && NoIdBefore(cs, id, k)
    ensures |Delete(cs, id)| == |cs| - 1
    ensures forall j :: 0 <= j < k ==> Delete(cs, id)[j] == cs[j]
    ensures forall j :: k < j < |cs| ==> Delete(cs, id)[j - 1] == cs[j]
  {
  }

  /** The comparison is exact: an id that equals no stored id, even one differing only in case, deletes nothing. */
  lemma DeleteMissingIsNoOp(cs: seq<Contact>, id: string)
    requires forall c :: c in cs ==> c.id != id
    ensures Delete(cs, id) == cs
  {
  }

  /** `update_contact`: every record whose id equals `id` exactly becomes `n`; the others stay. */
  function Update(cs: seq<Contact>, id: string, n: Contact): (r: seq<Contact>)
    ensures |r| == |cs|
    ensures forall i :: 0 <= i < |cs| && cs[i].id == id ==> r[i] == n
    ensures forall i :: 0 <= i < |cs| && cs[i].id != id ==> r[i] == cs[i]
    decreases |cs|
  {
    if |cs| == 0 then []
    else
      var tail := cs[1..];
      assert forall j :: 1 <= j < |cs| ==> cs[j] == tail[j - 1];
      [if cs[0].id == id then n else cs[0]] + Update(tail, id, n)
  }

  /** Updating twice with the same values is the same as updating once. */
  lemma UpdateIdempotent(cs: seq<Contact>, id: string, n: Contact)
    ensures Update(Update(cs, id, n), id, n) == Update(cs, id, n)
  {
  }

  /** An update whose id matches nothing leaves the list as it was. */
  lemma UpdateMissingIsNoOp(cs: seq<Contact>, id: string, n: Contact)
    requires forall i :: 0 <= i < |cs| ==> cs[i].id != id
    ensures Update(cs, id, n) == cs
  {
  }

  /** Overwriting every matching record with the value it already has changes nothing. */
  lemma UpdateWithSameRecordIsNoOp(cs: seq<Contact>, id: string, n: Contact)
    requires forall i :: 0 <= i < |cs| && cs[i].id == id ==> cs[i] == n
    ensures Update(cs, id, n) == cs
  {
  }

  /** The entered value if the prompt was not left blank, otherwise the old value. */
  function Pick(entered: string, prev: string): (v: string)
    ensures v == "" ==> entered == "" && prev == ""
    ensures entered != "" ==> v == entered
    ensures entered == "" ==> v == prev
  {
    if entered == "" then prev else entered
  }

  /** `edit_menu`: a blank answer keeps the old field; the id is always carried over. */
  function Merge(prev: Contact, e: Entry): (r: Contact)
    ensures r.id == prev.id
    ensures forall f: Field :: f != Id ==> Get(r, f) == Pick(Entered(e, f), Get(prev, f))
  {
    Contact(
      Pick(e.name, prev.name),
      Pick(e.lastname, prev.lastname),
      Pick(e.birth, prev.birth),
      Pick(e.email, prev.email),
      Pick(e.phone, prev.phone),
      Pick(e.occupation, prev.occupation),
      Pick(e.city, prev.city),
      Pick(e.country, prev.country),
      prev.id)
  }

  /** Answering every prompt with an empty line gives back the original record. */
  lemma MergeBlankIsIdentity(prev: Contact)
    ensures Merge(prev, Blank) == prev
  {
  }

  /** Applying the same answers to the edited record changes nothing more. */
  lemma MergeIdempotent(prev: Contact, e: Entry)
    ensures Merge(Merge(prev, e), e) == Merge(prev, e)
  {
  }

  /** Whatever the old record held, every non-blank answer wins and only the id survives unconditionally. */
  lemma MergeFullEntry(prev: Contact, other: Contact, e: Entry)
    requires forall f: Field :: f != Id ==> Entered(e, f) != ""
    requires prev.id == other.id
    ensures Merge(prev, e) == Merge(other, e)
  {
    var a := Merge(prev, e);
    var b := Merge(other, e);
    forall f: Field
      ensures Get(a, f) == Get(b, f)
    {
    }
    FieldsDetermineContact(a, b);
  }

  /** The record `add_contact` builds: the typed fields plus the id derived from them. */
  function NewContact(digest: string -> HexDigest, e: Entry): (c: Contact)
    ensures forall f: Field :: f != Id ==> Get(c, f) == Entered(e, f)
    ensures ValidateId(c.id)
    ensures c.id == DeriveId(digest, e)
  {
    Contact(e.name, e.lastname, e.birth, e.email, e.phone, e.occupation, e.city, e.country,
            DeriveId(digest, e))
  }

  /** `add_contact`: the new contact goes at the end; no check for an existing id. */
  function Add(digest: string -> HexDigest, cs: seq<Contact>, e: Entry): (r: seq<Contact>)
    ensures |r| == |cs| + 1
    ensures r[..|cs|] == cs
    ensures r[|cs|] == NewContact(digest, e)
  {
    cs + [NewContact(digest, e)]
  }

  /** Adding and then deleting by the new id restores the list when that id was not in use. */
  lemma AddThenDeleteRestores(digest: string -> HexDigest, cs: seq<Contact>, e: Entry)
    requires forall c :: c in cs ==> c.id != NewContact(digest, e).id
    ensures Delete(Add(digest, cs, e), NewContact(digest, e).id) == cs
  {
  }

  /**
    With a repeated id, adding then deleting removes the older record rather
    than the new one: the list ends with the new contact.
   */
  lemma AddDuplicateThenDeleteHitsOlder(digest: string -> HexDigest, cs: seq<Contact>, e: Entry, k: int)
    requires 0 <= k < |cs| && cs[k].id == NewContact(digest, e).id && NoIdBefore(cs, cs[k].id, k)
    ensures Delete(Add(digest, cs, e), cs[k].id) == cs[..k] + cs[k + 1..] + [NewContact(digest, e)]
  {
    var r := Add(digest, cs, e);
    assert r[k] == cs[k];
    assert NoIdBefore(r, cs[k].id, k);
    assert r[..k] == cs[..k];
    assert r[k + 1..] == cs[k + 1..] + [NewContact(digest, e)];

  }
}
