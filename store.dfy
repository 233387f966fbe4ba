/** The FFPriv record store: one object whose field is the stored document. Every
    operation reads the document, changes it and writes the whole of it back; here that
    is reading and reassigning `data`. Failure paths answer false and change nothing. */
module Store {
  import opened Records

  class FFPrivSystem {
    /** The stored document. */
    var data: Document

    /** Creating the store initialises it: a document already stored is kept as it is,
        otherwise the seeded default document is written. */
    constructor (stored: Option<Document>, now: Time)
      ensures data == if stored.Some? then stored.value else InitialData(now)
      ensures stored.None? ==> WellKeyed(data) && data.users == [] && |data.options| == 4
    {
      match stored
      case Some(d) => data := d;
      case None => data := InitialData(now);
    }

    /** Appends a new user, unless the email is taken. */
    method AddUser(email: string, now: Time, status: string := ACTIVE) returns (ok: bool)
      modifies this
      ensures ok == !HasEmail(old(data.users), email)
      ensures ok ==> data == old(data).(users := old(data.users) +
                        [User(email, status, [], now, now, None)])
      ensures !ok ==> data == old(data)
      ensures HasEmail(data.users, email)
      ensures WellKeyed(old(data)) ==> WellKeyed(data)
    {
      if FindUser(data.users, email).Some? {
        return false;
      }
      var newUser := User(email, status, [], now, now, None);
      if DistinctEmails(data.users) {
        AppendUserKeepsDistinct(data.users, newUser);
      }
      assert (data.users + [newUser])[|data.users|] == newUser;
      data := data.(users := data.users + [newUser]);
      ok := true;
    }

    /** Deletes the first user with this email, keeping the others in order. */
    method RemoveUser(email: string) returns (ok: bool)
      modifies this
      ensures ok == HasEmail(old(data.users), email)
      ensures ok ==> var i := FindUser(old(data.users), email).value;
                     data == old(data).(users := old(data.users)[..i] + old(data.users)[i + 1..])
      ensures !ok ==> data == old(data)
      ensures ok && DistinctEmails(old(data.users)) ==>
                |data.users| == |old(data.users)| - 1 && !HasEmail(data.users, email)
      ensures WellKeyed(old(data)) ==> WellKeyed(data)
    {
      var index := FindUser(data.users, email);
      if index.None? {
        return false;
      }
      var i := index.value;
      if DistinctEmails(data.users) {
        RemoveUserAtKeepsDistinct(data.users, i);
      }
      data := data.(users := data.users[..i] + data.users[i + 1..]);
      ok := true;
    }

    /** Overwrites the status of the first user with this email and refreshes updatedAt. */
    method UpdateUserStatus(email: string, status: string, now: Time) returns (ok: bool)
      modifies this
      ensures ok == HasEmail(old(data.users), email)
      ensures ok ==> var i := FindUser(old(data.users), email).value;
                     data == old(data).(users := old(data.users)[i :=
                       old(data.users)[i].(status := status, updatedAt := now)])
      ensures !ok ==> data == old(data)
      ensures WellKeyed(old(data)) ==> WellKeyed(data)
    {
      var index := FindUser(data.users, email);
      if index.None? {
        return false;
      }
      var i := index.value;
      var updated := data.users[i].(status := status, updatedAt := now);
      if DistinctEmails(data.users) {
        ReplaceUserKeepsDistinct(data.users, i, updated);
      }
      data := data.(users := data.users[i := updated]);
      ok := true;
    }

    /** Replaces the option list of the first user with this email and refreshes updatedAt. */
    method UpdateUserOptions(email: string, optionIds: seq<string>, now: Time) returns (ok: bool)
      modifies this
      ensures ok == HasEmail(old(data.users), email)
      ensures ok ==> var i := FindUser(old(data.users), email).value;
                     data == old(data).(users := old(data.users)[i :=
                       old(data.users)[i].(options := optionIds, updatedAt := now)])
      ensures !ok ==> data == old(data)
      ensures WellKeyed(old(data)) ==> WellKeyed(data)
    {
      var index := FindUser(data.users, email);
      if index.None? {
        return false;
      }
      var i := index.value;
      var updated := data.users[i].(options := optionIds, updatedAt := now);
      if DistinctEmails(data.users) {
        ReplaceUserKeepsDistinct(data.users, i, updated);
      }
      data := data.(users := data.users[i := updated]);
      ok := true;
    }

    /** Grants one option to a user who does not hold it yet. */
    method AddOptionToUser(email: string, optionId: string, now: Time) returns (ok: bool)
      modifies this
      ensures ok == (HasEmail(old(data.users), email) &&
                     optionId !in old(data.users)[FindUser(old(data.users), email).value].options)
      ensures ok ==> var i := FindUser(old(data.users), email).value;
                     data == old(data).(users := old(data.users)[i :=
                       old(data.users)[i].(options := old(data.users)[i].options + [optionId],
                                           updatedAt := now)])
      ensures !ok ==> data == old(data)
      ensures HasEmail(data.users, email) ==>
                optionId in data.users[FindUser(data.users, email).value].options
      ensures WellKeyed(old(data)) ==> WellKeyed(data)
    {
      var user := GetUserByEmail(data, email);
      if user.Some? && optionId !in user.value.options {
        ghost var before := data.users;
        ghost var i := FindUser(data.users, email).value;
        var _ := UpdateUserOptions(email, user.value.options + [optionId], now);
        FindUserSameEmails(data.users, before, email);
        assert optionId in data.users[i].options;
        ok := true;
      } else {
        ok := false;
      }
    }

    /** Withdraws one option (every copy of it) from a user who holds it. */
    method RemoveOptionFromUser(email: string, optionId: string, now: Time) returns (ok: bool)
      modifies this
      ensures ok == (HasEmail(old(data.users), email) &&
                     optionId in old(data.users)[FindUser(old(data.users), email).value].options)
      ensures ok ==> var i := FindUser(old(data.users), email).value;
                     data == old(data).(users := old(data.users)[i :=
                       old(data.users)[i].(options := RemoveAll(old(data.users)[i].options, optionId),
                                           updatedAt := now)])
      ensures !ok ==> data == old(data)
      ensures HasEmail(data.users, email) ==>
                optionId !in data.users[FindUser(data.users, email).value].options
      ensures WellKeyed(old(data)) ==> WellKeyed(data)
    {
      var user := GetUserByEmail(data, email);
      if user.Some? && optionId in user.value.options {
        ghost var before := data.users;
        ghost var i := FindUser(data.users, email).value;
        var _ := UpdateUserOptions(email, RemoveAll(user.value.options, optionId), now);
        FindUserSameEmails(data.users, before, email);
        ok := true;
      } else {
        ok := false;
      }
    }

    /** Appends a catalog entry, enabled, unless the id is taken. A missing or empty icon
        becomes the default icon. */
    method AddOption(id: string, name: string, icon: Option<string>) returns (ok: bool)
      modifies this
      ensures ok == !HasOption(old(data.options), id)
      ensures ok ==> data == old(data).(options := old(data.options) +
                        [CatalogEntry(id, name,
                                      if icon.Some? && icon.value != "" then icon.value else DEFAULT_ICON,
                                      true)])
      ensures !ok ==> data == old(data)
      ensures HasOption(data.options, id)
      ensures WellKeyed(old(data)) ==> WellKeyed(data)
    {
      if FindOption(data.options, id).Some? {
        return false;
      }
      var chosen := if icon.Some? && icon.value != "" then icon.value else DEFAULT_ICON;
      var entry := CatalogEntry(id, name, chosen, true);
      if DistinctIds(data.options) {
        AppendOptionKeepsDistinct(data.options, entry);
      }
      assert (data.options + [entry])[|data.options|] == entry;
      data := data.(options := data.options + [entry]);
      ok := true;
    }

    /** Deletes the first catalog entry with this id and strips the id from every user's
        list in the same write. The users' updatedAt stamps are left alone. */
    method RemoveOption(optionId: string) returns (ok: bool)
      modifies this
      ensures ok == HasOption(old(data.options), optionId)
      ensures ok ==> var i := FindOption(old(data.options), optionId).value;
                     data.options == old(data.options)[..i] + old(data.options)[i + 1..]
      ensures ok ==> data.users == Cascade(old(data.users), optionId)
      ensures ok ==> data.adminSettings == old(data.adminSettings)
      ensures !ok ==> data == old(data)
      ensures ok && DistinctIds(old(data.options)) ==>
                |data.options| == |old(data.options)| - 1 && !HasOption(data.options, optionId)
      ensures WellKeyed(old(data)) ==> WellKeyed(data)
    {
      var index := FindOption(data.options, optionId);
      if index.None? {
        return false;
      }
      var i := index.value;
      if DistinctIds(data.options) {
        RemoveOptionAtKeepsDistinct(data.options, i);
      }
      data := data.(options := data.options[..i] + data.options[i + 1..]);
      var k := 0;
      while k < |data.users|
        invariant k <= |data.users| == |old(data.users)|
        invariant forall j :: 0 <= j < k ==> data.users[j] == StripOption(old(data.users)[j], optionId)
        invariant forall j :: k <= j < |data.users| ==> data.users[j] == old(data.users)[j]
        invariant data.options == old(data.options)[..i] + old(data.options)[i + 1..]
        invariant data.adminSettings == old(data.adminSettings)
      {
        data := data.(users := data.users[k := StripOption(data.users[k], optionId)]);
        k := k + 1;
      }
      CascadeClears(old(data.users), optionId);
      ok := true;
    }

    /** Switches a catalog entry on or off. No user's list changes. */
    method ToggleOption(optionId: string, enabled: bool) returns (ok: bool)
      modifies this
      ensures ok == HasOption(old(data.options), optionId)
      ensures ok ==> var i := FindOption(old(data.options), optionId).value;
                     data == old(data).(options := old(data.options)[i :=
                       old(data.options)[i].(enabled := enabled)])
      ensures !ok ==> data == old(data)
      ensures data.users == old(data.users)
      ensures WellKeyed(old(data)) ==> WellKeyed(data)
    {
      var index := FindOption(data.options, optionId);
      if index.None? {
        return false;
      }
      var i := index.value;
      var updated := data.options[i].(enabled := enabled);
      if DistinctIds(data.options) {
        ReplaceOptionKeepsDistinct(data.options, i, updated);
      }
      data := data.(options := data.options[i := updated]);
      ok := true;
    }

    /** Stamps a user's last access. This is not a content change, so updatedAt stays. */
    method RecordUserAccess(email: string, now: Time) returns (ok: bool)
      modifies this
      ensures ok == HasEmail(old(data.users), email)
      ensures ok ==> var i := FindUser(old(data.users), email).value;
                     data == old(data).(users := old(data.users)[i :=
                       old(data.users)[i].(lastAccess := Some(now))])
      ensures !ok ==> data == old(data)
      ensures WellKeyed(old(data)) ==> WellKeyed(data)
    {
      var index := FindUser(data.users, email);
      if index.None? {
        return false;
      }
      var i := index.value;
      var updated := data.users[i].(lastAccess := Some(now));
      if DistinctEmails(data.users) {
        ReplaceUserKeepsDistinct(data.users, i, updated);
      }
      data := data.(users := data.users[i := updated]);
      ok := true;
    }

    /** Restores a parsed backup. It is refused, with nothing changed, when parsing failed or
        either collection is missing; otherwise it replaces the whole document unchecked. */
    method ImportData(parsed: Option<Parsed>) returns (ok: bool)
      modifies this
      ensures ok == (parsed.Some? && ShapeOk(parsed.value))
      ensures ok ==> data == Restored(parsed.value)
      ensures !ok ==> data == old(data)
    {
      if parsed.None? || !ShapeOk(parsed.value) {
        return false;
      }
      data := Restored(parsed.value);
      ok := true;
    }

    /** Throws the stored document away and writes the seeded default again. */
    method ResetSystem(now: Time) returns (ok: bool)
      modifies this
      ensures ok && data == InitialData(now)
      ensures WellKeyed(data) && data.users == [] && |data.options| == 4
    {
      data := InitialData(now);
      ok := true;
    }
  }
}
