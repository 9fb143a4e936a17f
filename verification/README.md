# Contact book: a Dafny model of the collection logic

The program is a console contact book. Contacts are records with nine
string fields: name, lastname, birth, email, phone, occupation, city,
country, and a derived `id`. They are kept as one ordered list in a JSON
file. This project models what the program does to that list once the
console and the file are stripped away:

- **Identity** (`identity.dfy`). A new contact's id is the first eight
  characters of the hexadecimal SHA-256 digest of
  `"<lastname> <name> <phone>"`. A typed id is accepted when it has eight
  characters.
- **Queries** (`query.dfy`). There are two searches. The field search keeps
  contacts whose lower-cased field contains the lower-cased search value.
  The id search keeps contacts whose lower-cased id equals the lower-cased
  typed id. Both are one order-preserving `Filter`.
- **Mutations** (`mutation.dfy`). Delete removes the first record whose id
  equals the target exactly. Update overwrites every record whose id equals
  the target exactly. The edit merge keeps the old value wherever the user
  left a prompt blank, and always keeps the id. Add appends a new contact
  carrying its derived id.
- **Edit flow** (`editflow.dfy`). An edit validates the typed id, asks the
  id search for exactly one hit, and updates the list. It comes in two
  forms: the program's own, and a corrected one (see Findings).
- **Text** (`text.dfy`) and **Contacts** (`contacts.dfy`) hold the helpers.
  These are an ASCII model of `str.lower()`, the substring test, the record
  and its field accessor.

SHA-256 is not implemented. Every operation that needs it takes a parameter
`digest: string -> HexDigest`, where `HexDigest` is any 64-character string
of lower-case hexadecimal digits. Every property holds for every such
function.

Two details of the code the model keeps:
- `update_contact` copies all nine keys of the edited record, `id`
  included. The id it copies is the found record's own id, so an edit never
  changes an id.
- `validate_id` (main.py:166) checks only the length of a typed id, not
  that it is hexadecimal. `ValidateId` does the same.

## Model

| member | source | states |
|---|---|---|
| Text.Lower | main.py:69 | `.lower()` as modelled: same length, each character mapped by the ASCII lower-casing |
| Text.LowerChar | main.py:79 | the lower-cased character is never an upper-case ASCII letter; only A-Z change, and they shift by the distance from 'A' to 'a' |
| Text.LowerIdempotent | main.py:79 | lower-casing an already lower-cased string changes nothing |
| Text.Contains | main.py:69 | Python's `needle in hay` as a left-to-right prefix scan: a hit needs a needle no longer than the haystack, and the empty needle always hits |
| Text.ContainsSpec | main.py:69 | the `in` test on strings holds exactly when the needle occurs at some offset of the haystack |
| Contacts.Get | main.py:69 | `contact[key]`: the value of the selected field; `Contacts.FieldsDetermineContact` shows the nine fields determine the record |
| Contacts.FieldsDetermineContact | main.py:210-220 | two records with equal values under every key are the same record |
| Identity.KeyString | main.py:91 | the hashed string is the last name, a space, the first name, a space, then the phone; each part is recoverable at its offset |
| Identity.DeriveId | main.py:83-107 | the id of a typed record is 8 lower-case hex characters and a prefix of the digest of its key string |
| Identity.ValidateId | main.py:165-168 | a typed id is accepted if and only if it has exactly eight characters |
| Identity.DerivedIdIsValid | main.py:123 | every id the program derives passes its own format check |
| Identity.SameKeySameId | main.py:91-95 | typed records agreeing on last name, name and phone get the same id, whatever their other five fields say |
| Identity.KeyStringAmbiguous | main.py:91 | two different records, last name "Van Der" with name "Berg" and last name "Van" with name "Der Berg", produce the same key and so the same id, for every digest |
| Query.Filter | main.py:67-70 | the result is no longer than the input; it holds only input elements that pass the test, and every passing input element |
| Query.FilterPositions | main.py:67-70 | the result is exactly the passing elements, taken at strictly increasing positions, i.e. in list order |
| Query.SingleHitIsUnique | main.py:148-150 | when the filter returns one element, exactly one position of the list passes the test |
| Query.FilterAll | main.py:67-70 | when every element passes, the filter returns the whole list |
| Query.FilterCongruent | main.py:67-70 | two tests that agree on every element give the same result |
| Query.FieldMatches | main.py:69 | the field test holds iff the lower-cased value occurs at some offset of the lower-cased field; an empty value always passes |
| Query.IdMatches | main.py:79 | the id test holds iff both ids have the same length and agree character by character after lower-casing |
| Query.SearchByField | main.py:65-70 | a contact is in the result iff it is in the list and its lower-cased field contains the lower-cased value |
| Query.SearchById | main.py:75-81 | a contact is in the result iff it is in the list and its id equals the typed id ignoring case |
| Query.SearchByFieldOrdered | main.py:67-70 | the field search returns the matching contacts in list order, each exactly once per position |
| Query.SearchByIdOrdered | main.py:78-80 | the id search returns the matching contacts in list order |
| Query.EmptyNeedleReturnsAll | main.py:69 | an empty search value returns the whole list |
| Query.SearchIgnoresNeedleCase | main.py:69 | search values equal up to case give the same result |
| Query.SearchByIdIgnoresCase | main.py:79 | searching by an id and by its lower-cased form give the same result |
| Query.SearchExampleAna | main.py:69 | searching the name "ANA" finds a contact named "Ana" |
| Mutation.Delete | main.py:170-175 | with no exact id match the list is unchanged; otherwise the result is the list with the first exact match cut out |
| Mutation.DeleteRemovesFirstMatch | main.py:170-175 | deleting a present id shortens the list by one and keeps the other records in their order |
| Mutation.DeleteMissingIsNoOp | main.py:172-173 | an id equal to no stored id deletes nothing; this includes an id that differs only in case |
| Mutation.Update | main.py:224-229 | the length is kept; every record whose id equals the target exactly becomes the new record, not only the first; all others are untouched |
| Mutation.UpdateIdempotent | main.py:224-229 | updating twice with the same record equals updating once |
| Mutation.UpdateMissingIsNoOp | main.py:226 | an update whose id matches no record leaves the list unchanged |
| Mutation.UpdateWithSameRecordIsNoOp | main.py:224-229 | overwriting every matching record with the value it already holds leaves the list unchanged |
| Mutation.Pick | main.py:185-187 | a non-blank answer is taken and a blank answer keeps the old value; the result is blank only if both are |
| Mutation.Merge | main.py:177-222 | each of the eight fields is the answer if non-blank, else the old value; the id is always the old record's id |
| Mutation.MergeBlankIsIdentity | main.py:184-220 | leaving every prompt blank gives back the original record |
| Mutation.MergeIdempotent | main.py:184-220 | merging the same answers into the merged record changes nothing |
| Mutation.MergeFullEntry | main.py:184-220 | when every answer is non-blank, the old record's fields other than the id have no influence |
| Mutation.NewContact | main.py:113-123 | the new record carries exactly the typed fields and the id derived from last name, name and phone, and that id is valid |
| Mutation.Add | main.py:110-124 | the list grows by one, the existing contacts are unchanged in front, and the new contact is last |
| Mutation.AddThenDeleteRestores | main.py:123-124 | adding a contact whose id is not yet in use, then deleting by that id, gives back the original list |
| Mutation.AddDuplicateThenDeleteHitsOlder | main.py:172-175 | when the new id already exists, delete removes the older record and the new contact stays at the end |
| EditFlow.EditAsWritten | main.py:143-152 | rejected for a typed id not of length 8, or when the id search does not return exactly one contact; otherwise length is kept and records whose id differs from the typed id are untouched |
| EditFlow.Edit | main.py:143-152 | same rejections as the program; on success the list keeps its length |
| EditFlow.FoundPosition | main.py:148-150 | a single id-search hit sits at one position, and no other record's id matches the typed id or equals the hit's id |
| EditFlow.EditChangesOnlyFoundRecord | main.py:149-151 | the corrected edit replaces exactly the found record by its merge with the answers; all other records stay |
| EditFlow.EditBlankIsNoOp | main.py:184-229 | a corrected edit with every prompt left blank writes back the list unchanged |
| EditFlow.EditAgreesWhenExact | main.py:149-151 | when the typed id equals a stored id exactly, the program's edit and the corrected edit give the same outcome |
| EditFlow.EditAsWrittenLosesCaseMismatch | main.py:151 | if the single hit's id differs from the typed id, as only case can make it, the program reports success and leaves the list unchanged |
| EditFlow.CaseMismatchExample | main.py:226 | stored id "abcdef12", typed "ABCDEF12", new name "Bea": the program keeps "Ana", the corrected edit stores "Bea" |

## Left out

- Reading and writing `contacts.json` (`read_json_file`, `save_json_file`) is
  file I/O. Every operation takes the loaded list and returns the changed
  list. Add and edit save that list (main.py:125, main.py:231). The
  persistence round trip is not modelled.
- `delete_contact` (main.py:170-175) removes the record from its argument
  in place and never calls `save_json_file`. A deletion therefore never
  reaches `contacts.json`, even with the argument-less call at main.py:311
  fixed. `Delete` models only the in-memory removal.
- The model assumes every stored record has exactly these nine fields, all
  strings. `contacts.json` is written outside the program (main.py:11 only
  opens an existing file). In the program, a record missing `id` or the
  searched key raises KeyError (main.py:69, 79, 173, 226). A non-string
  value raises AttributeError on `.lower()`. Neither failure is modelled.
- Menus, prompts and printing are console glue. This covers `main_menu`,
  `search_menu`, the dialog loop of `edit_contact`, `view_all_contacts`,
  `show_contact` and `show_contact_detail`. The typed answers become
  parameters (`Entry`, the typed id, the chosen `Field`).
- `search_menu` offers only name, lastname, email and phone.
  `SearchByField` accepts any field, as the filter loop itself does.
- The SHA-256 algorithm is a library call. It is the `digest` parameter,
  constrained only to SHA-256's output shape.
- Python's `str.lower()` lower-cases all of Unicode, with context rules such
  as the Greek final sigma. The model lower-cases ASCII A-Z only. The two
  agree on ASCII text. On other text they can differ in either direction:
  Python rejects "Σ" as a search value for the name "ΝΙΚΟΣ", which the model
  accepts, and the Kelvin sign matches "k" in Python but not in the model.
- `validate_id` failing at main.py:145-147 re-prompts into `choice`, not
  `contact_id`, so the program loops forever. The model returns
  `Rejected(InvalidFormat)` instead.
- The call `delete_contact()` at main.py:311 has no arguments. The model
  gives `Delete` the list and id the function declares.
- The "Search contact" branch of the edit menu does nothing, and is left out.
- `update_contact` copies whatever keys the new dictionary has. It is only
  ever given the nine-key record built by `edit_menu`, so `Update` replaces
  whole records.
- `edit_contact` reads the file twice: once for the search, once for the
  update. Nothing writes in between, so both reads are one list.

## Findings

| source | as written | input that shows it | evidently intended | confidence | as-written member | corrected member |
|---|---|---|---|---|---|---|
| main.py:151 | the update after a successful id search compares the id as typed, exactly, though the search matched it ignoring case | stored id "abcdef12", typed "ABCDEF12", new name "Bea": "Contact updated." is printed but the name stays "Ana" | update the one contact the search found | high; not executed | EditFlow.EditAsWrittenLosesCaseMismatch | EditFlow.EditChangesOnlyFoundRecord |
