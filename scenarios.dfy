/** Clients of the record store: sequences of calls, and what the store's contracts
    alone let a caller conclude about them. */
module Scenarios {
  import opened Records
  import opened Store

  /** Adding the same email twice: the second call is refused and the list does not grow. */
  method AddUserTwice(s: FFPrivSystem, email: string, now: Time) returns (first: bool, second: bool)
    modifies s
    ensures !second
    ensures |s.data.users| == |old(s.data.users)| + (if first then 1 else 0)
    ensures WellKeyed(old(s.data)) ==> WellKeyed(s.data)
  {
    first := s.AddUser(email, now);
    second := s.AddUser(email, now);
  }

  /** Granting the same option twice: the second call is refused and changes nothing. */
  method AddOptionToUserTwice(s: FFPrivSystem, email: string, optionId: string, now: Time)
    returns (second: bool, ghost between: Document)
    modifies s
    ensures !second && s.data == between
  {
    var first := s.AddOptionToUser(email, optionId, now);
    between := s.data;
    second := s.AddOptionToUser(email, optionId, now);
  }

  /** Disabling an option in the catalog does not revoke access a user already has. */
  method DisabledOptionKeepsAccess(now: Time) returns (before: bool, after: bool)
    ensures before && after
  {
    var s := new FFPrivSystem(None, now);
    var added := s.AddUser("a@x.com", now);
    assert FindUser(s.data.users, "a@x.com") == Some(0);
    var granted := s.AddOptionToUser("a@x.com", "color", now);
    assert granted;
    before := UserHasAccess(s.data, "a@x.com", "color");
    assert FindUser(s.data.users, "a@x.com") == Some(0);
    var toggled := s.ToggleOption("color", false);
    assert toggled;
    after := UserHasAccess(s.data, "a@x.com", "color");
  }

  /** An inactive user has access to nothing, whatever their list holds. */
  method InactiveUserHasNoAccess(now: Time, optionId: string) returns (access: bool)
    ensures !access
  {
    var s := new FFPrivSystem(None, now);
    var added := s.AddUser("b@x.com", now);
    assert FindUser(s.data.users, "b@x.com") == Some(0);
    var granted := s.AddOptionToUser("b@x.com", optionId, now);
    assert FindUser(s.data.users, "b@x.com") == Some(0);
    var updated := s.UpdateUserStatus("b@x.com", INACTIVE, now);
    assert FindUser(s.data.users, "b@x.com") == Some(0);
    access := UserHasAccess(s.data, "b@x.com", optionId);
  }

  /** Removing a catalog entry nobody holds shrinks the catalog by one and leaves
      every user as they were. */
  method RemoveUnheldOption(s: FFPrivSystem, optionId: string) returns (ok: bool)
    requires HasOption(s.data.options, optionId)
    requires forall k :: 0 <= k < |s.data.users| ==> optionId !in s.data.users[k].options
    modifies s
    ensures ok
    ensures |s.data.options| == |old(s.data.options)| - 1
    ensures s.data.users == old(s.data.users)
  {
    CascadeUnheld(s.data.users, optionId);
    ok := s.RemoveOption(optionId);
  }

  /** After removing an option, nobody holds it and nobody has access to it. */
  method RemovedOptionGrantsNothing(s: FFPrivSystem, optionId: string, email: string)
    returns (access: bool, holders: seq<User>)
    requires HasOption(s.data.options, optionId)
    modifies s
    ensures !access && holders == []
  {
    var ok := s.RemoveOption(optionId);
    CascadeClears(old(s.data.users), optionId);
    access := UserHasAccess(s.data, email, optionId);
    holders := GetUsersWithOption(s.data, optionId);
  }

  /** The statistics of a freshly seeded store: no users, an average of exactly zero,
      four options all enabled. */
  method FreshStoreStats(now: Time) returns (stats: Stats)
    ensures stats.totalUsers == 0 && stats.averageOptionsPerUser == 0.0
    ensures stats.totalOptions == 4 && stats.enabledOptions == 4
  {
    var s := new FFPrivSystem(None, now);
    stats := GetStats(s.data);
  }

  /** Restoring a backup of the store leaves it exactly as it was; a backup that failed
      to parse is refused and changes nothing. */
  method ExportImportRoundTrip(s: FFPrivSystem) returns (ok: bool, bad: bool)
    modifies s
    ensures ok && !bad
    ensures s.data == old(s.data)
  {
    bad := s.ImportData(None);
    ExportRestoreRoundTrip(s.data);
    ok := s.ImportData(Some(Exported(s.data)));
  }
}
