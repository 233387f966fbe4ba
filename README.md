# FFPriv record store, modelled in Dafny

The FFPriv system (`system.js`, class `FFPrivSystem`) keeps one stored document with
three parts: an ordered list of users keyed by email, an ordered catalog of options keyed
by id, and an admin-settings record. Its operations create, read, update and delete users
and options, and answer a few queries. Every operation reads the whole document, changes
it and writes the whole of it back. Expected failures answer `false` or `null` and leave
the document as it was: an unknown email or id, a taken email or id, or a refused import.

The model has three modules:

- `Records` (`records.dfy`) holds the document as datatypes (`User`, `CatalogEntry`,
  `AdminSettings`, `Document`). It has the pure queries over it (`GetUserByEmail`,
  `GetOptionById`, `GetUserOptions`, `UserHasAccess`, `GetUsersWithOption`, `GetStats`) and
  the first-match lookups `FindUser` and `FindOption` that every operation uses. It also
  holds the specification functions of the mutators (`RemoveAll`, `Cascade`, `Restored`)
  and the lemmas about all of them.
- `Store` (`store.dfy`) holds the class `FFPrivSystem`. Its one field `data` is the stored
  document: reading the stored document is reading `data`, and saving it is assigning
  `data`. Each mutator states the whole new document in terms of the old one. Each
  mutator other than `ImportData` also states that it keeps the key invariant
  `WellKeyed` (emails unique, catalog ids unique) when that invariant held before.
  `ImportData` and the constructor given an already stored document take the document
  as it comes, so they promise nothing about `WellKeyed`. `RemoveOption` strips the id from every user in a
  loop, like the source's `forEach`.
- `Scenarios` (`scenarios.dfy`) holds client methods. They chain store calls and prove,
  from the contracts alone, the behaviour a caller relies on. Examples: a repeated add is
  refused; disabling an option does not revoke access; a backup restores the same store.

Clock readings are an opaque `Time` value (ISO-8601 text) passed to each operation that
stamps a record. The model tracks only which field gets stamped: `createdAt` and
`updatedAt` on creation; `updatedAt` on status and option-list changes; `lastAccess` only
in `RecordUserAccess`. Unlike `updateUserOptions`, the cascade in `removeOption` leaves
every `updatedAt` as it was (system.js:234-236), and so does `RemoveOption`.

`importData` checks only the shape of a backup, not its contents. So a restored document
may break key uniqueness. For that reason `WellKeyed` is not an object invariant that
every method requires. Each mutator promises instead to preserve it, and every lookup is
first-match, as `find` and `findIndex` are.

## Model

| member | source | states |
|---|---|---|
| `Records.InitialData` | system.js:15-31 | the seeded document has no users and four options (color, wallhack, crosshair, esp), all enabled, with unique ids |
| `Records.HasEmail` | system.js:58 | the `some` test: true exactly when the email is among the stored users' emails |
| `Records.HasOption` | system.js:209 | the `some` test: true exactly when the id is among the catalog's ids |
| `Records.FindUser` | system.js:83 | the first index whose email matches; none exactly when no user has that email |
| `Records.FindOption` | system.js:229 | the first index whose id matches; none exactly when no catalog entry has that id |
| `Records.FindUserUnique` | system.js:100 | when emails are unique, the user holding an email is the one the lookup finds |
| `Records.FindUserSameEmails` | system.js:166-174 | lookup by email depends only on the emails, so a re-read after an update of other fields finds the same user |
| `Records.GetUserByEmail` | system.js:98-101 | null exactly when no user has the email; otherwise the first user with that email |
| `Records.GetUserOptions` | system.js:136-139 | the option list of the first user with the email, or the empty list for an unknown email |
| `Records.GetOptionById` | system.js:248-251 | null exactly when the id is absent; otherwise the first catalog entry with that id |
| `Records.UserHasAccess` | system.js:359-365 | no access for an unknown email; otherwise the answer is that of the first user with the email, even when an imported document repeats it: access exactly when that user is not `inativo` and holds the id |
| `Records.UserHasAccessIff` | system.js:359-365 | with unique emails, access holds if and only if the user with that email is not `inativo` and holds the id; any other status grants |
| `Records.AccessIgnoresCatalog` | system.js:259-269 | changing the catalog, such as toggling an option's enabled flag, never changes any access answer |
| `Records.UsersWithOption` | system.js:374 | a user is in the result if and only if it is a stored user holding the id; the result is no longer than the user list |
| `Records.UsersWithOptionAppend` | system.js:374 | the filter works section by section and keeps or drops each single user, so the report keeps storage order and one copy per holder |
| `Records.UsersWithOptionNone` | system.js:374 | when nobody holds the id the report is empty |
| `Records.GetUsersWithOption` | system.js:372-375 | the report holds exactly the stored users whose list contains the id, in storage order: splitting the users splits the report the same way |
| `Records.RemoveAll` | system.js:185 | the list without the id: no copy of it is left, and every other id keeps its number of occurrences |
| `Records.RemoveAllAppend` | system.js:235 | removing an id works section by section, so the remaining ids keep their relative order |
| `Records.RemoveAllAbsent` | system.js:235 | removing an id a list does not hold leaves the list unchanged |
| `Records.StripOption` | system.js:235 | one user after the filter: every field but the option list is kept, the id is gone, and every other id keeps its number of occurrences |
| `Records.Cascade` | system.js:234-236 | every user, position by position, with only the option list changed, the id gone from it and every other id kept |
| `Records.CascadeClears` | system.js:234-236 | after the cascade no user holds the id, the report of holders is empty, and emails stay unique |
| `Records.CascadeUnheld` | system.js:234-236 | the cascade of an id nobody holds changes no user |
| `Records.CascadeKeepsOtherAccess` | system.js:234-236 | the cascade of one id leaves every user's access to every other id as it was |
| `Records.AppendUserKeepsDistinct` | system.js:58-71 | appending a user whose email is absent keeps emails unique |
| `Records.AppendOptionKeepsDistinct` | system.js:209-215 | appending an entry whose id is absent keeps ids unique |
| `Records.RemoveUserAtKeepsDistinct` | system.js:86 | splicing out one user keeps emails unique and leaves that email absent |
| `Records.RemoveOptionAtKeepsDistinct` | system.js:232 | splicing out one entry keeps ids unique and leaves that id absent |
| `Records.ReplaceUserKeepsDistinct` | system.js:122-124 | changing a user's fields other than the email keeps emails unique |
| `Records.ReplaceOptionKeepsDistinct` | system.js:263-264 | changing an entry's fields other than the id keeps ids unique |
| `Records.CountStatus` | system.js:295-296 | the number of users with a given status is at most the number of users |
| `Records.CountStatusAppend` | system.js:295-296 | the status count adds up over sections, and a single user counts 1 exactly when they have that status, so it counts the users with that status |
| `Records.CountEnabled` | system.js:298 | the enabled count is at most the catalog size, and equal to it exactly when every entry is enabled |
| `Records.CountEnabledAppend` | system.js:298 | the enabled count adds up over sections, and a single entry counts 1 exactly when it is enabled, so it counts the enabled entries |
| `Records.TotalOptionCount` | system.js:307 | the `reduce` sum of list lengths is at least each user's list length |
| `Records.TotalOptionCountAppend` | system.js:307 | the sum adds up over sections, and a single user contributes the length of their list |
| `Records.Average` | system.js:306-308 | exactly 0 when there are no users; otherwise the average times the user count equals the summed list lengths |
| `Records.ActivePlusInactive` | system.js:295-296 | active plus inactive users never exceed the total |
| `Records.GetStats` | system.js:292-310 | totals are the list lengths; active and inactive are the counts of users with status `ativo` and `inativo`; enabled is the count of enabled entries; active + inactive <= total; enabled <= total options; the average is exactly 0 without users and otherwise times the user count equals the summed list lengths |
| `Records.ShapeOk` | system.js:330-333 | the shape check accepts a parsed backup exactly when it is the export of some document |
| `Records.Restored` | system.js:335 | the document an accepted backup becomes exports back to that same backup |
| `Records.Exported` | system.js:316-318 | a backup always passes the shape check and carries the stored users and options |
| `Records.ExportRestoreRoundTrip` | system.js:316-336 | restoring an exported backup gives back the same document |
| `Store.FFPrivSystem.constructor` | system.js:7-31 | a document already stored is kept; otherwise the seeded document is written |
| `Store.FFPrivSystem.AddUser` | system.js:54-74 | refused with nothing changed when the email is taken; otherwise exactly one user is appended (given status, default `ativo`, no options, no last access); emails stay unique |
| `Store.FFPrivSystem.RemoveUser` | system.js:81-91 | true exactly when the email is present; then exactly that entry is spliced out, the others keep their order, and the email is gone; otherwise nothing changes |
| `Store.FFPrivSystem.UpdateUserStatus` | system.js:118-129 | on a known email sets that user's status and updatedAt and nothing else; otherwise false and unchanged |
| `Store.FFPrivSystem.UpdateUserOptions` | system.js:147-158 | on a known email replaces that user's option list and updatedAt and nothing else; otherwise false and unchanged |
| `Store.FFPrivSystem.AddOptionToUser` | system.js:166-174 | true exactly when the user exists and lacks the id; then the id is appended and updatedAt refreshed; either way the user holds the id afterwards |
| `Store.FFPrivSystem.RemoveOptionFromUser` | system.js:182-190 | true exactly when the user exists and holds the id; then every copy is filtered out and updatedAt refreshed; either way the user lacks the id afterwards |
| `Store.FFPrivSystem.AddOption` | system.js:206-220 | refused with nothing changed on a taken id; otherwise one enabled entry is appended, with the default icon when none or an empty one is given; ids stay unique |
| `Store.FFPrivSystem.RemoveOption` | system.js:227-241 | true exactly when the id is in the catalog; then that entry is spliced out and the id is stripped from every user's list, with no stamp refreshed; with unique ids the catalog shrinks by one; otherwise nothing changes |
| `Store.FFPrivSystem.ToggleOption` | system.js:259-269 | on a known id sets only that entry's enabled flag; users are never touched |
| `Store.FFPrivSystem.RecordUserAccess` | system.js:276-286 | on a known email sets only that user's lastAccess; updatedAt is not refreshed |
| `Store.FFPrivSystem.ImportData` | system.js:325-341 | refused with nothing changed on a parse failure or a missing users or options array; otherwise the document becomes the backup |
| `Store.FFPrivSystem.ResetSystem` | system.js:347-351 | always succeeds and leaves exactly the seeded document |
| `Scenarios.AddUserTwice` | system.js:54-74 | adding the same email twice: the second call is refused and the list grows by at most one |
| `Scenarios.AddOptionToUserTwice` | system.js:166-174 | granting the same option twice: the second call is always refused and leaves the document as the first call left it |
| `Scenarios.DisabledOptionKeepsAccess` | system.js:359-365 | in a fresh store, a user granted `color` keeps access after `color` is disabled |
| `Scenarios.InactiveUserHasNoAccess` | system.js:359-365 | a user set to `inativo` has no access, whatever their list holds |
| `Scenarios.RemoveUnheldOption` | system.js:227-241 | removing an option nobody holds succeeds, shrinks the catalog by one and leaves every user unchanged |
| `Scenarios.RemovedOptionGrantsNothing` | system.js:227-241 | after an option is removed, no user has access to it and the holders report is empty |
| `Scenarios.FreshStoreStats` | system.js:292-310 | a fresh store reports no users, an average of exactly 0, and four options, all enabled |
| `Scenarios.ExportImportRoundTrip` | system.js:316-341 | a failed parse is refused, and restoring an export leaves the store exactly as it was |

## Left out

- Browser storage and JSON: `localStorage` reads, writes and removals, and
  `JSON.parse`/`JSON.stringify` in `getData`, `saveData`, `exportData` and `importData`.
  The stored document is the field `data`. The constructor receives what storage held
  before, as an optional document. `importData` receives the parsed value, which is
  `None` on a parse failure. In the parsed value, a collection that is missing or not an
  array is `None`.
- `exportData`: the pretty-printed text is not modelled. `Records.Exported` models only
  what parsing that text back yields, taken to be the document itself. That is sound here,
  because the stored document has already passed through JSON in `getData`. So
  `ExportRestoreRoundTrip` proves the shape check and the whole-document save, not the
  serialiser.
- `getData` and `saveData` have no member of their own: they are reading and assigning
  `data`. `getAllUsers` and `getAvailableOptions` return `data.users` and `data.options`
  directly, so they have no member either.
- `initializeSystem` is modelled where the source calls it, in the constructor and in
  `ResetSystem`. Once the store has been constructed, a document is always stored, so a
  later call does nothing.
- `new Date().toISOString()`: each operation gets one opaque clock value. `addUser` reads
  the clock twice; the model gives `createdAt` and `updatedAt` the same value.
- `averageOptionsPerUser`: computed as an exact real ratio. The division is floating
  point in the source and the value is formatted with `toFixed(2)`; neither is modelled.
- `console.error` on a failed import and the `module.exports` shim: logging and module
  plumbing.
- `adminSettings` is opaque data that no operation reads. It is carried through
  unchanged and replaced only by import and reset.
- Imported elements are assumed to be well-formed records: `Parsed` holds users and
  catalog entries. The source accepts any array element, `null` included. Later calls
  such as `getUserByEmail` (system.js:100) or `getStats` (system.js:307) then throw.
- A stored text that is not valid JSON makes `getData` (system.js:38) throw. The model's
  stored document is always well-formed, so that failure is not modelled.
- Concurrent writers (two tabs racing on the same stored document) are not modelled. The
  store assumes a single caller.
