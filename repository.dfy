/** The member table: rows by primary key, an id generator, a uuid generator, and the unique email column. */
module Repository {
  import opened Wrappers
  import opened Entity
  import opened Exceptions

  /** The table's state. */
  datatype Table = Table(rows: map<nat, Member>, nextId: nat, nextUuid: Uuid)

  /** No rows; the id sequence starts at 1. */
  const EmptyTable := Table(map[], 1, 0)

  /** Some stored row has email `e` (a null `e` matches a row whose email is null). */
  predicate EmailTaken(rows: map<nat, Member>, e: Option<string>) {
    exists k :: k in rows && rows[k].email == e
  }

  /** Some row other than `self` holds the non-null email `e`: what the unique column refuses. */
  predicate EmailHeldByOther(rows: map<nat, Member>, e: Option<string>, self: Option<nat>) {
    e.Some? && exists k :: k in rows && Some(k) != self && rows[k].email == e
  }

  /** No two rows share a non-null email (nulls are distinct, as in SQL). */
  predicate UniqueEmails(rows: map<nat, Member>) {
    forall i, j :: i in rows && j in rows && i != j && rows[i].email.Some? ==> rows[i].email != rows[j].email
  }

  /** Every row sits under its own id, every id was drawn from the generator, every row meets the
      entity constraints, and emails are unique. */
  predicate Inv(t: Table) {
    && 1 <= t.nextId
    && (forall k :: k in t.rows ==> 1 <= k < t.nextId && t.rows[k].id == Some(k) && ValidFields(t.rows[k]))
    && UniqueEmails(t.rows)
  }

  /** The row a save overwrites: the record's own id when a row has it; otherwise the save inserts. */
  function Target(t: Table, m: Member): Option<nat> {
    if m.id.Some? && m.id.value in t.rows then m.id else None
  }

  /** What a save returns, and the table after it. */
  datatype Saved = Saved(result: Result<Member, Failure>, after: Table)

  lemma InsertKeepsUnique(rows: map<nat, Member>, k: nat, r: Member)
    requires UniqueEmails(rows) && k !in rows
    requires !EmailHeldByOther(rows, r.email, None)
    ensures UniqueEmails(rows[k := r])
  {
    var rows' := rows[k := r];
    forall i, j | i in rows' && j in rows' && i != j && rows'[i].email.Some?
      ensures rows'[i].email != rows'[j].email
    {
      if i == k {
        assert j in rows && Some(j) != None;
      } else if j == k {
        assert i in rows && Some(i) != None;
      }
    }
  }

  lemma ReplaceKeepsUnique(rows: map<nat, Member>, k: nat, r: Member)
    requires UniqueEmails(rows) && k in rows
    requires !EmailHeldByOther(rows, r.email, Some(k))
    ensures UniqueEmails(rows[k := r])
  {
    var rows' := rows[k := r];
    forall i, j | i in rows' && j in rows' && i != j && rows'[i].email.Some?
      ensures rows'[i].email != rows'[j].email
    {
      if i == k {
        assert j in rows && Some(j) != Some(k);
      } else if j == k {
        assert i in rows && Some(i) != Some(k);
      }
    }
  }

  /** JpaRepository.save on this table. A record breaking the entity constraints is refused by
      Bean Validation before anything is written. A record whose id names a stored row replaces that
      row and gets a fresh mod_dt; any other record is inserted under a fresh id, with a fresh uuid and
      both timestamps set. Either way a non-null email held by another row is a unique-constraint
      violation, and then nothing is written. */
  function SaveStep(t: Table, m: Member, now: Timestamp): (s: Saved)
    requires Inv(t)
    ensures Inv(s.after)
    ensures s.result.Failure? <==> !ValidFields(m) || EmailHeldByOther(t.rows, m.email, Target(t, m))
    ensures s.result.Failure? ==> s.after == t
    ensures s.result.Failure? ==> s.result.error == if ValidFields(m) then DataIntegrityViolation else ConstraintViolation
    ensures s.result.Success? ==>
      && s.result.value.id.Some?
      && s.after.rows == t.rows[s.result.value.id.value := s.result.value]
      && s.result.value.email == m.email && s.result.value.name == m.name && s.result.value.phone == m.phone
      && s.result.value.modDt == Some(now)
    ensures s.result.Success? && Target(t, m).Some? ==>
      && s.result.value.id == m.id && s.result.value.uuid == m.uuid && s.result.value.regDt == m.regDt
      && |s.after.rows| == |t.rows|
    ensures s.result.Success? && Target(t, m).None? ==>
      && s.result.value.id.value !in t.rows
      && s.result.value.uuid == Some(t.nextUuid) && t.nextUuid < s.after.nextUuid
      && s.result.value.regDt == Some(now)
      && |s.after.rows| == |t.rows| + 1
  {
    if !ValidFields(m) then Saved(Failure(ConstraintViolation), t)
    else if Target(t, m).Some? then
      var k := m.id.value;
      if EmailHeldByOther(t.rows, m.email, m.id) then Saved(Failure(DataIntegrityViolation), t)
      else
        var r := m.(modDt := Some(now));
        ReplaceKeepsUnique(t.rows, k, r);
        Saved(Success(r), t.(rows := t.rows[k := r]))
    else
      var k := t.nextId;
      if EmailHeldByOther(t.rows, m.email, None) then Saved(Failure(DataIntegrityViolation), t)
      else
        var r := m.(id := Some(k), uuid := Some(t.nextUuid), regDt := Some(now), modDt := Some(now));
        InsertKeepsUnique(t.rows, k, r);
        Saved(Success(r), Table(t.rows[k := r], k + 1, t.nextUuid + 1))
  }

  /** After a successful save, looking up the returned id finds a row equal to the returned record,
      and the saved email is in use. */
  lemma SavedIsFound(t: Table, m: Member, now: Timestamp)
    requires Inv(t) && SaveStep(t, m, now).result.Success?
    ensures var s := SaveStep(t, m, now);
      && s.result.value.id.value in s.after.rows
      && s.after.rows[s.result.value.id.value] == s.result.value
      && EmailTaken(s.after.rows, m.email)
  {
    var s := SaveStep(t, m, now);
    assert s.after.rows[s.result.value.id.value] == s.result.value;
  }

  /** JpaRepository.deleteById: the row with that id is gone, every other row stays as it was;
      an absent id changes nothing. */
  function DeleteStep(t: Table, id: nat): (after: Table)
    requires Inv(t)
    ensures Inv(after)
    ensures id !in after.rows
    ensures forall k :: k in t.rows && k != id ==> k in after.rows && after.rows[k] == t.rows[k]
    ensures forall k :: k in after.rows ==> k in t.rows
    ensures id !in t.rows ==> after == t
    ensures id in t.rows ==> |after.rows| == |t.rows| - 1
  {
    t.(rows := t.rows - {id})
  }

  /** `ms` lists exactly the stored rows, each once, in ascending primary-key order. */
  predicate ListsRows(ms: seq<Member>, rows: map<nat, Member>) {
    && (forall i :: 0 <= i < |ms| ==> ms[i].id.Some? && ms[i].id.value in rows && rows[ms[i].id.value] == ms[i])
    && (forall i, j :: 0 <= i < j < |ms| ==> ms[i].id.Some? && ms[j].id.Some? && ms[i].id.value < ms[j].id.value)
    && (forall k :: k in rows ==> rows[k] in ms)
  }

  /** `ms` lists the stored rows with ids below `bound`, in ascending order, and nothing else. */
  predicate ListsRowsBelow(ms: seq<Member>, rows: map<nat, Member>, bound: nat) {
    && (forall i :: 0 <= i < |ms| ==>
          ms[i].id.Some? && ms[i].id.value in rows && rows[ms[i].id.value] == ms[i] && ms[i].id.value < bound)
    && (forall i, j :: 0 <= i < j < |ms| ==> ms[i].id.Some? && ms[j].id.Some? && ms[i].id.value < ms[j].id.value)
    && (forall k :: k in rows && k < bound ==> rows[k] in ms)
  }

  /** One step of the scan: the row under `bound`, if any, goes at the end. */
  lemma ScanStep(ms: seq<Member>, rows: map<nat, Member>, bound: nat)
    requires ListsRowsBelow(ms, rows, bound)
    requires bound in rows ==> rows[bound].id == Some(bound)
    ensures ListsRowsBelow(if bound in rows then ms + [rows[bound]] else ms, rows, bound + 1)
  {
  }

  /** Once the bound is past every id, the scan lists the whole table. */
  lemma ScanDone(ms: seq<Member>, rows: map<nat, Member>, bound: nat)
    requires ListsRowsBelow(ms, rows, bound)
    requires forall k :: k in rows ==> k < bound
    ensures ListsRows(ms, rows)
  {
  }

  /** Dropping the last entry of a full listing gives a full listing of the table without that entry's row. */
  lemma ListedPrefix(ms: seq<Member>, rows: map<nat, Member>)
    requires ListsRows(ms, rows) && ms != []
    requires forall k :: k in rows ==> rows[k].id == Some(k)
    ensures ms[|ms| - 1].id.Some? && ms[|ms| - 1].id.value in rows
    ensures ListsRows(ms[..|ms| - 1], rows - {ms[|ms| - 1].id.value})
  {
    var n := ms[|ms| - 1].id.value;
    var prefix := ms[..|ms| - 1];
    var rest := rows - {n};
    forall k | k in rest
      ensures rest[k] in prefix
    {
      var j :| 0 <= j < |ms| && ms[j] == rows[k];
      assert ms[j].id == Some(k);
      assert prefix[j] == ms[j];
    }
    forall i | 0 <= i < |prefix|
      ensures prefix[i].id.Some? && prefix[i].id.value in rest && rest[prefix[i].id.value] == prefix[i]
    {
      assert ms[i] == prefix[i];
    }
  }

  /** A listing of every row, each under its own id and in ascending order, is as long as the table. */
  lemma {:induction false} ListedCount(ms: seq<Member>, rows: map<nat, Member>)
    requires ListsRows(ms, rows)
    requires forall k :: k in rows ==> rows[k].id == Some(k)
    ensures |ms| == |rows|
  {
    if ms == [] {
      assert forall k :: k !in rows;
      assert rows == map[];
    } else {
      var n := ms[|ms| - 1].id.value;
      ListedPrefix(ms, rows);
      ListedCount(ms[..|ms| - 1], rows - {n});
    }
  }

  /** The table as an object: Spring Data's repository over the member table. */
  class MemberRepo {
    var rows: map<nat, Member>
    var nextId: nat
    var nextUuid: Uuid

    function State(): Table
      reads this
    {
      Table(rows, nextId, nextUuid)
    }

    predicate Valid()
      reads this
    {
      Inv(State())
    }

    constructor ()
      ensures Valid() && State() == EmptyTable
    {
      rows, nextId, nextUuid := map[], 1, 0;
    }

    /** save: validate, then insert or replace, refused by the unique email column. */
    method Save(m: Member, now: Timestamp) returns (r: Result<Member, Failure>)
      requires Valid()
      modifies this
      ensures Valid()
      ensures Saved(r, State()) == SaveStep(old(State()), m, now)
    {
      if !ValidFields(m) {
        r := Failure(ConstraintViolation);
      } else if m.id.Some? && m.id.value in rows {
        if EmailHeldByOther(rows, m.email, m.id) {
          r := Failure(DataIntegrityViolation);
        } else {
          var row := m.(modDt := Some(now));
          rows := rows[m.id.value := row];
          r := Success(row);
        }
      } else {
        if EmailHeldByOther(rows, m.email, None) {
          r := Failure(DataIntegrityViolation);
        } else {
          var row := m.(id := Some(nextId), uuid := Some(nextUuid), regDt := Some(now), modDt := Some(now));
          rows := rows[nextId := row];
          nextId, nextUuid := nextId + 1, nextUuid + 1;
          r := Success(row);
        }
      }
    }

    /** findById: the row under that id, or empty. */
    method FindById(id: nat) returns (r: Option<Member>)
      ensures r.Some? <==> id in rows
      ensures r.Some? ==> r.value == rows[id]
    {
      r := if id in rows then Some(rows[id]) else None;
    }

    /** existsByEmail: whether some row has that email. */
    method ExistsByEmail(e: Option<string>) returns (b: bool)
      ensures b <==> exists k :: k in rows && rows[k].email == e
    {
      b := exists k | k in rows :: rows[k].email == e;
    }

    /** findAll: a scan of the table. The program promises no order; this scan goes by primary key. */
    method FindAll() returns (ms: seq<Member>)
      requires Valid()
      ensures ListsRows(ms, rows)
      ensures |ms| == |rows|
    {
      ms := [];
      var i := 1;
      while i < nextId
        invariant 1 <= i <= nextId
        invariant ListsRowsBelow(ms, rows, i)
      {
        ScanStep(ms, rows, i);
        if i in rows {
          ms := ms + [rows[i]];
        }
        i := i + 1;
      }
      ScanDone(ms, rows, i);
      ListedCount(ms, rows);
    }

    /** deleteById: remove the row with that id, if there is one. */
    method DeleteById(id: nat)
      requires Valid()
      modifies this
      ensures Valid()
      ensures State() == DeleteStep(old(State()), id)
    {
      rows := rows - {id};
    }
  }
}
