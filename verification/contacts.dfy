/**
  The contact record of the contact book: nine string fields, the last of
  which (`id`) is derived from the others when the contact is created.
 */
module Contacts {

  datatype Contact = Contact(
    name: string,
    lastname: string,
    birth: string,
    email: string,
    phone: string,
    occupation: string,
    city: string,
    country: string,
    id: string)

  /** The keys of a contact, used to select the field a search filters on. */
  datatype Field = Name | Lastname | Birth | Email | Phone | Occupation | City | Country | Id

  /** The eight values a user types when adding or editing a contact; never an id. */
  datatype Entry = Entry(
    name: string,
    lastname: string,
    birth: string,
    email: string,
    phone: string,
    occupation: string,
    city: string,
    country: string)

  /** `contact[key]` */
  function Get(c: Contact, f: Field): string {
    match f
    case Name => c.name
    case Lastname => c.lastname
    case Birth => c.birth
    case Email => c.email
    case Phone => c.phone
    case Occupation => c.occupation
    case City => c.city
    case Country => c.country
    case Id => c.id
  }

  /** The value entered for a field; the id is never prompted for, so it reads as blank. */
  function Entered(e: Entry, f: Field): string {
    match f
    case Name => e.name
    case Lastname => e.lastname
    case Birth => e.birth
    case Email => e.email
    case Phone => e.phone
    case Occupation => e.occupation
    case City => e.city
    case Country => e.country
    case Id => ""
  }

  /** An entry in which every prompt was answered with an empty line. */
  const Blank := Entry("", "", "", "", "", "", "", "")

  /** Two contacts with the same value in every field are the same contact. */
  lemma FieldsDetermineContact(a: Contact, b: Contact)
    requires forall f: Field :: Get(a, f) == Get(b, f)
    ensures a == b
  {
    assert Get(a, Name) == Get(b, Name);
    assert Get(a, Lastname) == Get(b, Lastname);
    assert Get(a, Birth) == Get(b, Birth);
    assert Get(a, Email) == Get(b, Email);
    assert Get(a, Phone) == Get(b, Phone);
    assert Get(a, Occupation) == Get(b, Occupation);
    assert Get(a, City) == Get(b, City);
    assert Get(a, Country) == Get(b, Country);
    assert Get(a, Id) == Get(b, Id);
  }
}
