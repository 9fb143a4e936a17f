/**
  Contact identity: the id of a new contact is the first eight characters of
  the hexadecimal SHA-256 digest of "<lastname> <name> <phone>". The digest
  itself is a parameter (`digest`), so every statement here holds for any
  function with SHA-256's output shape: 64 lower-case hexadecimal digits.
 */
module Identity {
  import opened Contacts

  /** One of the characters `hexdigest()` produces: 0-9 and a-f. */
  predicate IsHexDigit(c: char) {
    '0' <= c <= '9' || 'a' <= c <= 'f'
  }

  predicate IsLowerHex(s: string) {
    forall i :: 0 <= i < |s| ==> IsHexDigit(s[i])
  }

  /** The shape of `hashlib.sha256(...).hexdigest()`. */
  type HexDigest = s: string | |s| == 64 && IsLowerHex(s)
    witness seq(64, i => '0')

  /** Length of a contact id. */
  const IdLength := 8

  /** The string the digest is taken over: last name, first name and phone, single-space separated. */
  function KeyString(lastname: string, name: string, phone: string): (k: string)
    ensures |k| == |lastname| + |name| + |phone| + 2
    ensures k[..|lastname|] == lastname && k[|lastname|] == ' '
    ensures k[|lastname| + 1..|lastname| + 1 + |name|] == name && k[|lastname| + 1 + |name|] == ' '
    ensures k[|lastname| + |name| + 2..] == phone
  {
    lastname + " " + name + " " + phone
  }

  /**
    `hash(contact)` / `generate_contact_id(contact)`: the first eight digest
    characters. The record hashed is the one `add_contact` builds from the
    typed values, before it has an id.
   */
  function DeriveId(digest: string -> HexDigest, e: Entry): (r: string)
    ensures |r| == IdLength && IsLowerHex(r)
    ensures r <= digest(KeyString(e.lastname, e.name, e.phone))
  {
    digest(KeyString(e.lastname, e.name, e.phone))[..IdLength]
  }

  /** `validate_id`: an id typed by the user is accepted exactly when it has eight characters. */
  function ValidateId(id: string): (ok: bool)
    ensures ok <==> |id| == IdLength
  {
    if |id| != IdLength then false else true
  }

  /** Every derived id passes the format check, whatever digest is used. */
  lemma DerivedIdIsValid(digest: string -> HexDigest, e: Entry)
    ensures ValidateId(DeriveId(digest, e))
  {
  }

  /**
    The id depends on nothing but last name, first name and phone: two records
    that agree there get the same id, whatever their other five fields say.
   */
  lemma SameKeySameId(digest: string -> HexDigest, a: Entry, b: Entry)
    requires a.lastname == b.lastname && a.name == b.name && a.phone == b.phone
    ensures DeriveId(digest, a) == DeriveId(digest, b)
  {
  }

  /**
    The key string does not separate its parts unambiguously: a space moved
    between last name and first name gives the same key, hence the same id,
    for every digest.
   */
  lemma KeyStringAmbiguous(digest: string -> HexDigest)
    ensures var a := Entry("Berg", "Van Der", "", "", "555", "", "", "");
      var b := Entry("Der Berg", "Van", "", "", "555", "", "", "");
      a != b && DeriveId(digest, a) == DeriveId(digest, b)
  {
    assert KeyString("Van Der", "Berg", "555") == KeyString("Van", "Der Berg", "555");
  }
}
