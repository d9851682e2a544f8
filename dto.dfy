/** The transport shapes: what a client sends to create or update a member, and what it gets back. */
module Dto {
  import opened Wrappers
  import opened Entity

  /** The creation payload: only the client-supplied fields. */
  datatype Create = Create(email: Option<string>, name: Option<string>, phone: Option<string>)

  /** The update payload: the same three fields. */
  datatype Update = Update(email: Option<string>, name: Option<string>, phone: Option<string>)

  /** The response payload: every column of the row. */
  datatype Info = Info(
    id: Option<nat>,
    uuid: Option<Uuid>,
    email: Option<string>,
    name: Option<string>,
    phone: Option<string>,
    regDt: Option<Timestamp>,
    modDt: Option<Timestamp>)

  predicate ValidCreate(c: Create) {
    ValidContact(c.email, c.name, c.phone)
  }

  predicate ValidUpdate(u: Update) {
    ValidContact(u.email, u.name, u.phone)
  }

  predicate ValidInfo(i: Info) {
    ValidContact(i.email, i.name, i.phone)
  }
}
