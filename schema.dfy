/** The four model classes of the app as table rows, the signed-in user the
    session holds, and the uniqueness the User table's columns declare. */
module Schema {
  import opened Tables
  import Security

  /** User: username, email and phone are declared unique; password holds a hash. */
  datatype UserFields = UserFields(username: string, email: string, phone: string, password: Security.PasswordHash)

  datatype MedicineFields = MedicineFields(userId: int, name: string, dosage: string, expiryDate: string)

  /** medicineId is the id posted by the reminder form, stored unchecked;
      None is NULL, which the ORM writes when that medicine is deleted. */
  datatype ReminderFields = ReminderFields(userId: int, medicineId: Option<int>, reminderTime: string, frequency: string)

  datatype AlternativeFields = AlternativeFields(condition: string, medicineName: string, alternativeName: string)

  type User = Row<UserFields>
  type Medicine = Row<MedicineFields>
  type Reminder = Row<ReminderFields>
  type AlternativeMedicine = Row<AlternativeFields>

  /** What login stores in the session: session['user_id'] and session['username']. */
  datatype SessionUser = SessionUser(userId: int, username: string)

  /** The unique text columns of User. */
  datatype UserColumn = Username | Email | Phone

  function ColumnOf(u: UserFields, c: UserColumn): string
  {
    match c
    case Username => u.username
    case Email => u.email
    case Phone => u.phone
  }

  /** `User.query.filter_by(c=v).first()` finds a row. */
  predicate Taken(users: seq<User>, c: UserColumn, v: string)
  {
    exists i :: 0 <= i < |users| && ColumnOf(users[i].fields, c) == v
  }

  predicate DistinctColumn(users: seq<User>, c: UserColumn)
  {
    forall i, j ::
      (0 <= i < |users| && 0 <= j < |users| && ColumnOf(users[i].fields, c) == ColumnOf(users[j].fields, c)) ==> i == j
  }

  /** The User table's constraints: unique id, username, email and phone. */
  predicate UsersValid(users: seq<User>)
  {
    UniqueIds(users) && DistinctColumn(users, Username) && DistinctColumn(users, Email) && DistinctColumn(users, Phone)
  }

  /** The session names an existing user under that user's username. */
  predicate SignedInAs(users: seq<User>, s: SessionUser)
  {
    exists i :: 0 <= i < |users| && users[i].id == s.userId && users[i].fields.username == s.username
  }

  /** The medicine with primary key id exists and belongs to user uid. */
  predicate MedicineOwnedBy(medicines: seq<Medicine>, id: int, uid: int)
  {
    exists i :: 0 <= i < |medicines| && medicines[i].id == id && medicines[i].fields.userId == uid
  }

  /** The reminder with primary key id exists and belongs to user uid. */
  predicate ReminderOwnedBy(reminders: seq<Reminder>, id: int, uid: int)
  {
    exists i :: 0 <= i < |reminders| && reminders[i].id == id && reminders[i].fields.userId == uid
  }

  /** `Medicine.query.filter_by(user_id=uid).all()`. */
  function MedicinesOf(medicines: seq<Medicine>, uid: int): (r: seq<Medicine>)
    ensures forall m :: m in r <==> m in medicines && m.fields.userId == uid
    ensures forall m :: multiset(r)[m] == if m.fields.userId == uid then multiset(medicines)[m] else 0
    ensures UniqueIds(medicines) ==> UniqueIds(r)
  {
    FilterKeepsUniqueIds(medicines, (m: Medicine) => m.fields.userId == uid);
    Filter(medicines, (m: Medicine) => m.fields.userId == uid)
  }

  /** `Reminder.query.filter_by(user_id=uid).all()`. */
  function RemindersOf(reminders: seq<Reminder>, uid: int): (r: seq<Reminder>)
    ensures forall m :: m in r <==> m in reminders && m.fields.userId == uid
    ensures forall m :: multiset(r)[m] == if m.fields.userId == uid then multiset(reminders)[m] else 0
    ensures UniqueIds(reminders) ==> UniqueIds(r)
  {
    FilterKeepsUniqueIds(reminders, (m: Reminder) => m.fields.userId == uid);
    Filter(reminders, (m: Reminder) => m.fields.userId == uid)
  }

  /** A reminder as it is once medicine id is deleted: the Medicine.reminders
      backref has no delete cascade, so the ORM sets medicine_id to NULL on
      each reminder that refers to that medicine. */
  function Detach(r: Reminder, id: int): Reminder
  {
    if r.fields.medicineId == Some(id) then Row(r.id, r.fields.(medicineId := None)) else r
  }

  /** The reminder table after medicine id is deleted: every row survives,
      with the same id, owner, time and frequency, and only the references
      to that medicine become NULL, whoever owns the reminder. */
  function DetachReminders(reminders: seq<Reminder>, id: int): (r: seq<Reminder>)
    ensures |r| == |reminders|
    ensures forall i :: 0 <= i < |r| ==>
      r[i].id == reminders[i].id
      && r[i].fields.userId == reminders[i].fields.userId
      && r[i].fields.reminderTime == reminders[i].fields.reminderTime
      && r[i].fields.frequency == reminders[i].fields.frequency
      && r[i].fields.medicineId != Some(id)
      && (reminders[i].fields.medicineId != Some(id) ==> r[i] == reminders[i])
      && (reminders[i].fields.medicineId == Some(id) ==> r[i].fields.medicineId == None)
    ensures Ids(r) == Ids(reminders)
    ensures UniqueIds(reminders) ==> UniqueIds(r)
    ensures (forall i :: 0 <= i < |reminders| ==> reminders[i].fields.medicineId != Some(id)) ==> r == reminders
  {
    var r := seq(|reminders|, i requires 0 <= i < |reminders| => Detach(reminders[i], id));
    assert forall i :: 0 <= i < |r| ==> r[i].id == reminders[i].id;
    assert Ids(r) == Ids(reminders) by {
      assert forall x :: x in Ids(r) ==> x in Ids(reminders);
      assert forall x :: x in Ids(reminders) ==> x in Ids(r) by {
        assert forall i :: 0 <= i < |reminders| ==> reminders[i].id in Ids(r);
      }
    }
    r
  }
}
