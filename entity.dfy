/** The Member row: the one entity of the system, with its declared field constraints. */
module Entity {
  import opened Wrappers

  /** Stands for java.util.UUID: an opaque value the store draws fresh on insert. */
  type Uuid = nat
  /** Stands for LocalDateTime: a reading of an abstract clock. */
  type Timestamp = nat

  /** Every field is a nullable Java reference, so every field is an Option. */
  datatype Member = Member(
    id: Option<nat>,
    uuid: Option<Uuid>,
    email: Option<string>,
    name: Option<string>,
    phone: Option<string>,
    regDt: Option<Timestamp>,
    modDt: Option<Timestamp>)

  const EmailMinLength := 2
  const EmailMaxLength := 64
  const NameMinLength := 2
  const NameMaxLength := 32
  const PhoneMinLength := 11
  const PhoneMaxLength := 13

  /** A length constraint in the Bean Validation sense: null is accepted, a string must have min..max characters. */
  predicate LengthWithin(s: Option<string>, min: nat, max: nat) {
    s.None? || min <= |s.value| <= max
  }

  /** The email constraints: not null, not empty, 2 to 64 characters. */
  predicate ValidEmail(e: Option<string>) {
    e.Some? && |e.value| > 0 && LengthWithin(e, EmailMinLength, EmailMaxLength)
  }

  predicate ValidName(n: Option<string>) {
    LengthWithin(n, NameMinLength, NameMaxLength)
  }

  predicate ValidPhone(p: Option<string>) {
    LengthWithin(p, PhoneMinLength, PhoneMaxLength)
  }

  /** The constraints on the three fields a client supplies, shared by the row and every payload. */
  predicate ValidContact(email: Option<string>, name: Option<string>, phone: Option<string>) {
    ValidEmail(email) && ValidName(name) && ValidPhone(phone)
  }

  /** The constraints a row must meet when it is written. */
  predicate ValidFields(m: Member) {
    ValidContact(m.email, m.name, m.phone)
  }
}
