/** The application state: the four tables of the store and the session of
    the one client whose requests are served in sequence. Each route is a
    method; the protected ones redirect to login, changing nothing, when the
    session holds no user. */
module MedTrack {
  import opened Tables
  import opened Schema
  import opened Auth
  import Seeder

  /** What a protected page shows, or the redirect to the login page. */
  datatype Page<T> = RedirectToLogin | Render(view: T)

  /** dashboard.html: the signed-in username and that user's medicines. */
  datatype DashboardView = DashboardView(username: string, medicines: seq<Medicine>)

  /** reminder.html: the user's medicines (to pick from) and reminders. */
  datatype ReminderView = ReminderView(medicines: seq<Medicine>, reminders: seq<Reminder>)

  /** The result of a protected route that changes the store, as its flash message tells it. */
  datatype Outcome = NotSignedIn | Added | Deleted | NothingDeleted

  class App {
    var users: seq<User>
    var medicines: seq<Medicine>
    var reminders: seq<Reminder>
    var alternatives: seq<AlternativeMedicine>
    var session: Option<SessionUser>

    /** The store's constraints, the session names a real user, and every
        medicine and reminder belongs to a real user. */
    ghost predicate Valid()
      reads this
    {
      UsersValid(users) && UniqueIds(medicines) && UniqueIds(reminders) && UniqueIds(alternatives)
      && (session.Some? ==> SignedInAs(users, session.value))
      && (forall m :: m in medicines ==> m.fields.userId in Ids(users))
      && (forall r :: r in reminders ==> r.fields.userId in Ids(users))
    }

    /** db.create_all() on a new database, with nobody signed in. */
    constructor ()
      ensures Valid()
      ensures users == [] && medicines == [] && reminders == [] && alternatives == []
      ensures session == None
    {
      users, medicines, reminders, alternatives := [], [], [], [];
      session := None;
    }

    /** seed_alternative_medicines: add the six reference rows when the table is empty. */
    method SeedAlternativeMedicines()
      requires Valid()
      modifies this
      ensures Valid()
      ensures alternatives == Seeder.Seed(old(alternatives))
      ensures old(alternatives) != [] ==> alternatives == old(alternatives)
      ensures users == old(users) && medicines == old(medicines) && reminders == old(reminders)
      ensures session == old(session)
    {
      if |alternatives| == 0 {
        AddAlternatives(Seeder.SeedData);
      }
    }

    /** The seeder's loop: db.session.add of one row per item, in order. */
    method AddAlternatives(items: seq<AlternativeFields>)
      requires Valid()
      modifies this
      ensures Valid()
      ensures alternatives == InsertAll(old(alternatives), items)
      ensures users == old(users) && medicines == old(medicines) && reminders == old(reminders)
      ensures session == old(session)
    {
      var i := 0;
      while i < |items|
        invariant 0 <= i <= |items|
        invariant InsertAll(alternatives, items[i..]) == InsertAll(old(alternatives), items)
        invariant UniqueIds(alternatives)
        invariant users == old(users) && medicines == old(medicines) && reminders == old(reminders)
        invariant session == old(session)
      {
        InsertAllStep(alternatives, items, i);
        alternatives := Insert(alternatives, items[i]);
        i := i + 1;
      }
      assert items[i..] == [];
    }

    /** The register route on a submitted form; salt is the random salt the
        password hash is made with. On success the new user is a fresh row
        whose stored hash verifies exactly the submitted password. */
    method Register(username: string, email: string, phone: string, password: string, salt: string)
      returns (result: Option<RegisterError>)
      requires Valid()
      modifies this
      ensures Valid()
      ensures result == CheckRegistration(old(users), username, email, phone, password)
      ensures result == None ==> AppendedFresh(old(users), users, NewUser(username, email, phone, password, salt))
      ensures result == None ==> forall q ::
        Security.CheckPasswordHash(users[|old(users)|].fields.password, q) <==> q == password
      ensures result != None ==> users == old(users)
      ensures medicines == old(medicines) && reminders == old(reminders) && alternatives == old(alternatives)
      ensures session == old(session)
    {
      result := CheckRegistration(users, username, email, phone, password);
      if result == None {
        RegistrationKeepsUsersValid(users, username, email, phone, password, salt);
        var before := users;
        users := Insert(users, NewUser(username, email, phone, password, salt));
        assert forall i :: 0 <= i < |before| ==> users[i] == before[i] by {
          forall i | 0 <= i < |before| ensures users[i] == before[i] { assert users[..|before|][i] == users[i]; }
        }
      }
    }

    /** The login route: on success the session holds the user's id and
        username; on failure, whether the email is unknown or the password
        wrong, nothing changes. */
    method Login(email: string, password: string) returns (ok: bool)
      requires Valid()
      modifies this
      ensures Valid()
      ensures ok == Authenticate(users, email, password).Some?
      ensures ok ==> session == Authenticate(users, email, password)
      ensures !ok ==> session == old(session)
      ensures users == old(users) && medicines == old(medicines) && reminders == old(reminders)
      ensures alternatives == old(alternatives)
    {
      var signedIn := Authenticate(users, email, password);
      ok := signedIn.Some?;
      if ok {
        session := signedIn;
      }
    }

    /** The logout route: session.clear(). */
    method Logout()
      requires Valid()
      modifies this
      ensures Valid()
      ensures session == None
      ensures users == old(users) && medicines == old(medicines) && reminders == old(reminders)
      ensures alternatives == old(alternatives)
    {
      session := None;
    }

    /** The dashboard route: exactly the signed-in user's medicines. */
    method Dashboard() returns (page: Page<DashboardView>)
      ensures session == None <==> page == RedirectToLogin
      ensures session != None ==> page.Render? && page.view.username == session.value.username
      ensures session != None ==> forall m ::
        m in page.view.medicines <==> m in medicines && m.fields.userId == session.value.userId
      ensures session != None ==> forall m ::
        multiset(page.view.medicines)[m] == if m.fields.userId == session.value.userId then multiset(medicines)[m] else 0
      ensures session != None && UniqueIds(medicines) ==> UniqueIds(page.view.medicines)
    {
      if session == None {
        return RedirectToLogin;
      }
      page := Render(DashboardView(session.value.username, MedicinesOf(medicines, session.value.userId)));
    }

    /** The add_medicine route on a submitted form: one new row owned by the signed-in user. */
    method AddMedicine(name: string, dosage: string, expiryDate: string) returns (outcome: Outcome)
      requires Valid()
      modifies this
      ensures Valid()
      ensures old(session) == None ==> outcome == NotSignedIn && medicines == old(medicines)
      ensures old(session) != None ==>
        outcome == Added && AppendedFresh(old(medicines), medicines, MedicineFields(old(session).value.userId, name, dosage, expiryDate))
      ensures users == old(users) && reminders == old(reminders) && alternatives == old(alternatives)
      ensures session == old(session)
    {
      if session == None {
        return NotSignedIn;
      }
      var uid := session.value.userId;
      assert uid in Ids(users);
      var before := medicines;
      medicines := Insert(medicines, MedicineFields(uid, name, dosage, expiryDate));
      assert forall m :: m in medicines ==> m in before || m.fields.userId == uid by {
        forall m | m in medicines ensures m in before || m.fields.userId == uid {
          var k :| 0 <= k < |medicines| && medicines[k] == m;
          if k < |before| { assert medicines[..|before|][k] == m; }
        }
      }
      outcome := Added;
    }

    /** The delete_medicine route: the row goes exactly when it exists and
        belongs to the signed-in user. No reminder is removed; the ORM sets
        to NULL the medicine id of every reminder that referred to it. */
    method DeleteMedicine(id: int) returns (outcome: Outcome)
      requires Valid()
      modifies this
      ensures Valid()
      ensures old(session) == None ==> outcome == NotSignedIn
      ensures old(session) != None ==>
        (outcome == Deleted <==> MedicineOwnedBy(old(medicines), id, old(session).value.userId))
        && (outcome != Deleted ==> outcome == NothingDeleted)
      ensures outcome == Deleted ==> medicines == RemoveId(old(medicines), id)
      ensures outcome != Deleted ==> medicines == old(medicines)
      ensures outcome == Deleted ==> reminders == DetachReminders(old(reminders), id)
      ensures outcome != Deleted ==> reminders == old(reminders)
      ensures |reminders| == |old(reminders)| && forall i :: 0 <= i < |reminders| ==>
        reminders[i].id == old(reminders)[i].id && reminders[i].fields.userId == old(reminders)[i].fields.userId
      ensures users == old(users) && alternatives == old(alternatives)
      ensures session == old(session)
    {
      if session == None {
        return NotSignedIn;
      }
      var found := Get(medicines, id);
      if found.Some? && found.value.fields.userId == session.value.userId {
        medicines := RemoveId(medicines, id);
        var before := reminders;
        reminders := DetachReminders(reminders, id);
        assert forall r :: r in reminders ==> r.fields.userId in Ids(users) by {
          forall r | r in reminders ensures r.fields.userId in Ids(users) {
            var k :| 0 <= k < |reminders| && reminders[k] == r;
            assert before[k] in before;
          }
        }
        outcome := Deleted;
      } else {
        outcome := NothingDeleted;
      }
    }

    /** The reminder route without a form: the signed-in user's medicines and reminders. */
    method ReminderPage() returns (page: Page<ReminderView>)
      ensures session == None <==> page == RedirectToLogin
      ensures session != None ==>
        page.Render?
        && (forall m :: m in page.view.medicines <==> m in medicines && m.fields.userId == session.value.userId)
        && (forall r :: r in page.view.reminders <==> r in reminders && r.fields.userId == session.value.userId)
      ensures session != None ==>
        (forall m :: multiset(page.view.medicines)[m] ==
           if m.fields.userId == session.value.userId then multiset(medicines)[m] else 0)
        && (forall r :: multiset(page.view.reminders)[r] ==
              if r.fields.userId == session.value.userId then multiset(reminders)[r] else 0)
      ensures session != None && UniqueIds(medicines) ==> UniqueIds(page.view.medicines)
      ensures session != None && UniqueIds(reminders) ==> UniqueIds(page.view.reminders)
    {
      if session == None {
        return RedirectToLogin;
      }
      var uid := session.value.userId;
      page := Render(ReminderView(MedicinesOf(medicines, uid), RemindersOf(reminders, uid)));
    }

    /** The reminder route on a submitted form: one new reminder owned by
        the signed-in user, whatever medicine id was posted. */
    method AddReminder(medicineId: int, reminderTime: string, frequency: string) returns (outcome: Outcome)
      requires Valid()
      modifies this
      ensures Valid()
      ensures old(session) == None ==> outcome == NotSignedIn && reminders == old(reminders)
      ensures old(session) != None ==>
        outcome == Added && AppendedFresh(old(reminders), reminders, ReminderFields(old(session).value.userId, Some(medicineId), reminderTime, frequency))
      ensures users == old(users) && medicines == old(medicines) && alternatives == old(alternatives)
      ensures session == old(session)
    {
      if session == None {
        return NotSignedIn;
      }
      var uid := session.value.userId;
      assert uid in Ids(users);
      var before := reminders;
      reminders := Insert(reminders, ReminderFields(uid, Some(medicineId), reminderTime, frequency));
      assert forall r :: r in reminders ==> r in before || r.fields.userId == uid by {
        forall r | r in reminders ensures r in before || r.fields.userId == uid {
          var k :| 0 <= k < |reminders| && reminders[k] == r;
          if k < |before| { assert reminders[..|before|][k] == r; }
        }
      }
      outcome := Added;
    }

    /** The delete_reminder route: the row goes exactly when it exists and
        belongs to the signed-in user. */
    method DeleteReminder(id: int) returns (outcome: Outcome)
      requires Valid()
      modifies this
      ensures Valid()
      ensures old(session) == None ==> outcome == NotSignedIn
      ensures old(session) != None ==>
        (outcome == Deleted <==> ReminderOwnedBy(old(reminders), id, old(session).value.userId))
        && (outcome != Deleted ==> outcome == NothingDeleted)
      ensures outcome == Deleted ==> reminders == RemoveId(old(reminders), id)
      ensures outcome != Deleted ==> reminders == old(reminders)
      ensures users == old(users) && medicines == old(medicines) && alternatives == old(alternatives)
      ensures session == old(session)
    {
      if session == None {
        return NotSignedIn;
      }
      var found := Get(reminders, id);
      if found.Some? && found.value.fields.userId == session.value.userId {
        reminders := RemoveId(reminders, id);
        outcome := Deleted;
      } else {
        outcome := NothingDeleted;
      }
    }

    /** The alternative_medicines route: every reference row, signed in or not. */
    method AlternativeMedicines() returns (rows: seq<AlternativeMedicine>)
      ensures rows == alternatives
    {
      rows := alternatives;
    }
  }
}
