/**
 * The request bodies for creating and updating a contact, with the field
 * constraints their validation imposes, and `model_dump()` for the update body.
 */
module Schemas {
  import opened Dates
  import opened Models

  /** Body of a create request. */
  datatype ContactSchema = ContactSchema(
    name: string,
    surname: string,
    email: string,
    phone: string,
    birthday: Date)

  /** Body of an update request: the same five fields. */
  datatype ContactUpdate = ContactUpdate(
    name: string,
    surname: string,
    email: string,
    phone: string,
    birthday: Date)

  /** `Field(max_length=150)` on name and surname; the birthday need only be a date. */
  predicate ContactSchemaValid(s: ContactSchema) {
    |s.name| <= NameMaxLength && |s.surname| <= NameMaxLength && ValidDate(s.birthday)
  }

  /** The update body puts no length limit on any field. */
  predicate ContactUpdateValid(u: ContactUpdate) {
    ValidDate(u.birthday)
  }

  lemma LongNameRejected(s: ContactSchema)
    requires |s.name| > NameMaxLength || |s.surname| > NameMaxLength
    ensures !ContactSchemaValid(s)
  {
  }

  /** Every valid create body, read as an update body, is a valid update body ... */
  lemma SchemaValidIsUpdateValid(s: ContactSchema)
    requires ContactSchemaValid(s)
    ensures ContactUpdateValid(ContactUpdate(s.name, s.surname, s.email, s.phone, s.birthday))
  {
  }

  /** An update body's name and surname may be of any length. */
  lemma UpdateLengthUnbounded(u: ContactUpdate, name: string, surname: string)
    requires ContactUpdateValid(u)
    ensures ContactUpdateValid(u.(name := name, surname := surname))
  {
  }

  /** So, unlike a create body, an update body may carry a 151-character name. */
  lemma UpdateAdmitsLongName()
    ensures exists u :: ContactUpdateValid(u) && |u.name| > NameMaxLength
  {
    var long := seq(NameMaxLength + 1, _ => 'a');
    var u := ContactUpdate(long, "", "", "", Date(2000, 1, 1));
    assert ContactUpdateValid(u) && |u.name| > NameMaxLength;
  }

  /** Neither body restricts the birthday beyond being a calendar date. */
  lemma BirthdayUnconstrained(s: ContactSchema, d: Date)
    requires ContactSchemaValid(s) && ValidDate(d)
    ensures ContactSchemaValid(s.(birthday := d))
    ensures ContactUpdateValid(ContactUpdate(s.name, s.surname, s.email, s.phone, d))
  {
  }

  /** A value of one field in a dumped body. */
  datatype FieldValue = Str(text: string) | Day(date: Date)

  /** The attribute names of a dumped update body, in declaration order. */
  const UpdateFields: seq<string> := ["name", "surname", "email", "phone", "birthday"]

  /** `contact_update.model_dump().items()`: one (attribute, value) pair per field. */
  function DumpUpdate(u: ContactUpdate): (items: seq<(string, FieldValue)>)
    ensures |items| == |UpdateFields|
    ensures forall i :: 0 <= i < |items| ==> items[i].0 == UpdateFields[i]
  {
    [("name", Str(u.name)), ("surname", Str(u.surname)), ("email", Str(u.email)),
     ("phone", Str(u.phone)), ("birthday", Day(u.birthday))]
  }
}
