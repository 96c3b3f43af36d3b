/**
 * The admin session: a flag `isAdmin` mirrored into the browser's key/value storage
 * under `admin_session`, set by a login with the fixed credentials and cleared by
 * logout, and the route guard that reads it.
 */
module AdminContext {

  const SessionKey: string := "admin_session"
  const ActiveValue: string := "active"
  const AdminUser: string := "Aamin"
  const AdminPassword: string := "MANO@9008"

  /** What a fresh provider reads from storage: the session key holds `active`. */
  predicate StoredSession(storage: map<string, string>) {
    SessionKey in storage && storage[SessionKey] == ActiveValue
  }

  predicate ValidCredentials(username: string, password: string) {
    username == AdminUser && password == AdminPassword
  }

  /** Where the guard sends a visitor: the protected page for an admin, the login page otherwise. */
  datatype Destination = Protected | LoginPage

  function Guard(isAdmin: bool): (d: Destination)
    ensures d == Protected <==> isAdmin
  {
    if isAdmin then Protected else LoginPage
  }

  /** After a successful login, a reload finds the session. */
  lemma LoginSurvivesReload(storage: map<string, string>)
    ensures StoredSession(storage[SessionKey := ActiveValue])
  {
  }

  /** After logout, a reload finds no session, and logging out again removes nothing more. */
  lemma LogoutSurvivesReload(storage: map<string, string>)
    ensures !StoredSession(storage - {SessionKey})
    ensures (storage - {SessionKey}) - {SessionKey} == storage - {SessionKey}
  {
  }

  class AdminSession {
    var isAdmin: bool
    var storage: map<string, string>

    /** The flag agrees with what a reload would read. */
    predicate Mirrored()
      reads this
    {
      isAdmin == StoredSession(storage)
    }

    /** The provider's initial state: admin exactly when storage holds an active session. */
    constructor(stored: map<string, string>)
      ensures storage == stored
      ensures isAdmin <==> StoredSession(stored)
      ensures Mirrored()
    {
      storage := stored;
      isAdmin := StoredSession(stored);
    }

    /** `login`: true exactly for the fixed pair, which sets the flag and stores the session; otherwise nothing changes. */
    method Login(username: string, password: string) returns (ok: bool)
      modifies this
      ensures ok <==> ValidCredentials(username, password)
      ensures ok ==> isAdmin && storage == old(storage)[SessionKey := ActiveValue] && Mirrored()
      ensures ok ==> StoredSession(storage)
      ensures !ok ==> isAdmin == old(isAdmin) && storage == old(storage)
    {
      if username == AdminUser && password == AdminPassword {
        isAdmin := true;
        storage := storage[SessionKey := ActiveValue];
        return true;
      }
      return false;
    }

    /** `logout`: clears the flag and removes the session key, leaving the rest of storage alone. */
    method Logout()
      modifies this
      ensures !isAdmin && storage == old(storage) - {SessionKey}
      ensures Mirrored() && !StoredSession(storage)
    {
      isAdmin := false;
      storage := storage - {SessionKey};
    }

    /** A page reload: the provider is mounted again and reads the flag back from storage, which it keeps. */
    method Reload()
      modifies this`isAdmin
      ensures storage == old(storage)
      ensures isAdmin <==> StoredSession(storage)
      ensures old(Mirrored()) ==> isAdmin == old(isAdmin)
    {
      isAdmin := StoredSession(storage);
    }
  }
}
