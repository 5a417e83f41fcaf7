# HexLock credential vault — a Dafny model

HexLock is a password vault. Its backend keeps every user's credentials in one
list of password entries, each tagged with the principal (the identity) that
owns it. The entries are addressed by the pair (principal, site). The frontend
dashboard checks the identity provider for an existing session and sends the
browser to the landing page when there is none. It fetches the
user's entries and shows them under a search filter, with a reveal flag per
row. It saves new entries, deletes entries after a confirm dialog, and can fill
the draft's password with 16 random bytes written as hexadecimal.

The model has six modules, one file each:

- `Wrappers` (wrappers.dfy): `Option`.
- `Collections` (collections.dfy): an order-preserving `Filter` and its laws.
  This one definition stands for the iterator `filter` of `get_credentials!`,
  `Vec::retain` in `delete_entry`, and `Array.prototype.filter` in the search.
- `Backend` (backend.dfy): the canister in `lib.rs`. It is a class
  `PasswordManager` whose field `entries: seq<PasswordEntry>` is updated in
  place by `AddEntry`, `EditEntry` and `DeleteEntry`. The read-only queries
  `GetEntries` and `GetEntry` are functions. The module also holds lemmas on
  what several calls do together.
- `VaultView` (vault_view.dfy): the pure helpers of `dashboard.jsx`. These are
  the search filter, the reveal-flag updater, and the byte-to-hex rendering
  (`toString(16)` and `padStart`). A hex decoder is included as the partner
  for the round-trip proof.
- `Gateway` (gateway.dfy): the client wrappers in `query.js`, as methods that
  call the backend object. A `reached` flag says whether a call got through.
- `DashboardComponent` (dashboard.dfy): the `Dashboard` component as a class.
  Its fields are the React state hooks. Its handlers are methods, and each
  returns the list of remote requests it issued. The inputs are the identity
  provider's answer, the confirm answer, the random bytes and the transport
  outcomes. The client method `SaveThenDeleteSession` shows that these
  contracts compose. It mounts a page for a principal over an empty store,
  saves `example.com`/`alice`/`x1y2`, and deletes it. The list then shows
  exactly that one entry, and after the delete it is empty.

Behaviours of the code a reader might not expect:

- Sites are not unique per principal. `add_entry` appends without looking, so
  duplicates exist: `edit_entry` changes the first one and `delete_entry`
  removes all of them.
- `edit_entry` on a missing key returns false and changes nothing.
- The client does not classify errors. The mutating wrappers swallow failures.
  `getCredentials` returns null. The handlers keep the old list when the
  refetch yields null. An empty list is truthy in JavaScript and is adopted.
- `handleSubmit` itself does not validate the draft. The only check is the
  browser's `required` attribute on the form inputs.
- The reveal flags are keyed by row index, not by a stable record key. They
  are never reset when the list is refetched or when the search changes.
- Logging out does not clear the fetched list; the page navigates away instead.
- `!principalId` also rejects the empty string. `HasPrincipal` therefore
  requires the principal to be present and non-empty.

## Model

| member | source | states |
|---|---|---|
| `Collections.Filter` | src/password_manager_backend/src/lib.rs:42-45 | every kept element satisfies the condition and comes from the input; every input element that satisfies it is kept; never longer than the input |
| `Collections.FilterIsSubsequence` | src/password_manager_frontend/src/dashboard.jsx:30-33 | the filtered list is an order-preserving subsequence of the input |
| `Collections.FilterMultiplicity` | src/password_manager_backend/src/lib.rs:88 | a kept element occurs exactly as often as in the input, a dropped one not at all |
| `Collections.FilterShrinks` | src/password_manager_backend/src/lib.rs:85-91 | the filtered list is strictly shorter iff some element fails the condition |
| `Backend.EntriesOf` | src/password_manager_backend/src/lib.rs:40-47 | exactly the entries of the principal, drawn from the store, in stored order, each as often as it is stored |
| `Backend.FirstMatch` | src/password_manager_backend/src/lib.rs:64-65 | the index of an entry matching principal and site with no match before it; none iff no entry matches |
| `Backend.Retained` | src/password_manager_backend/src/lib.rs:88-91 | keeps exactly the non-matching entries in order, each as often as it is stored; shorter iff some entry matched |
| `Backend.PasswordManager.constructor` | src/password_manager_backend/src/lib.rs:14-21 | the store starts empty |
| `Backend.PasswordManager.AddEntry` | src/password_manager_backend/src/lib.rs:24-36 | the store grows by one; earlier entries unchanged; the new last entry has the caller's fields and `encrypted == false` |
| `Backend.PasswordManager.GetEntries` | src/password_manager_backend/src/lib.rs:56-59 | exactly the principal's entries, in stored order, each as often as it is stored; reads only |
| `Backend.PasswordManager.GetEntry` | src/password_manager_backend/src/lib.rs:62-67 | the first entry matching principal and site; None iff there is none |
| `Backend.PasswordManager.EditEntry` | src/password_manager_backend/src/lib.rs:70-80 | true iff some entry matches; then only the first match gets the new username and password (site, principal, `encrypted`, other entries and length kept); on false nothing changes |
| `Backend.PasswordManager.DeleteEntry` | src/password_manager_backend/src/lib.rs:83-92 | removes every matching entry and keeps the rest in order; true iff some entry matched, i.e. iff the length decreased |
| `Backend.AddShowsOnlyToOwner` | src/password_manager_backend/src/lib.rs:50-59 | after an add the owner's view gains the new entry at its end; every other principal's view is unchanged |
| `Backend.AddKeepsDuplicates` | src/password_manager_backend/src/lib.rs:34 | adding the same (principal, site) twice gives two more matching entries |
| `Backend.DeleteLeavesNoMatch` | src/password_manager_backend/src/lib.rs:88 | after a delete, `get_entry` finds nothing and the owner's view holds no entry for that site |
| `Backend.DeleteIdempotent` | src/password_manager_backend/src/lib.rs:83-92 | a second identical delete leaves the store unchanged and reports false |
| `Backend.DeleteSparesOtherPrincipals` | src/password_manager_backend/src/lib.rs:88 | a delete never changes another principal's view |
| `Backend.EditSparesOtherPrincipals` | src/password_manager_backend/src/lib.rs:72-75 | an edit of one principal's entry never changes another principal's view |
| `DashboardComponent.Dashboard.Visible` | src/password_manager_frontend/src/dashboard.jsx:30-33 | the listed rows are the fetched entries the current search term selects, in list order; the whole list when the term is empty |
| `VaultView.Contains` | src/password_manager_frontend/src/dashboard.jsx:31-32 | `includes` holds iff the term occurs at some position of the text |
| `VaultView.FilteredPasswords` | src/password_manager_frontend/src/dashboard.jsx:30-33 | keeps an entry iff its lower-cased site or username contains the lower-cased term; result is an order-preserving subsequence of the list |
| `VaultView.EmptySearchKeepsAll` | src/password_manager_frontend/src/dashboard.jsx:30-33 | with the empty search term the filtered list is the whole list |
| `VaultView.SearchIgnoresCase` | src/password_manager_frontend/src/dashboard.jsx:31-32 | terms that agree after lower-casing select the same entries |
| `VaultView.SearchKeepsMultiplicity` | src/password_manager_frontend/src/dashboard.jsx:30 | a selected entry appears as often as in the list, an unselected one not at all |
| `VaultView.Toggle` | src/password_manager_frontend/src/dashboard.jsx:92-95 | flips the truthiness of the chosen key (absent reads as false); every other key keeps its presence and value |
| `VaultView.ToggleTwice` | src/password_manager_frontend/src/dashboard.jsx:91-96 | toggling a row twice restores every row's truthiness, and the exact map when the key was present |
| `VaultView.HexDigit` | src/password_manager_frontend/src/dashboard.jsx:138 | every digit value 0-15 gives a character in `[0-9a-f]` |
| `VaultView.HexValue` | src/password_manager_frontend/src/dashboard.jsx:138 | inverts `HexDigit` on `[0-9a-f]` and rejects every other character |
| `VaultView.NumberToHex` | src/password_manager_frontend/src/dashboard.jsx:138 | `toString(16)` writes only hex digits, and a single digit exactly when the number is below 16 |
| `VaultView.PadStart` | src/password_manager_frontend/src/dashboard.jsx:138 | pads on the left with the fill character up to the width and keeps the original as the suffix; longer strings are unchanged |
| `VaultView.ByteToHex` | src/password_manager_frontend/src/dashboard.jsx:138 | every byte becomes exactly two characters: its high and its low hex digit |
| `VaultView.RenderHex` | src/password_manager_frontend/src/dashboard.jsx:137-139 | n bytes render to 2n characters, all in `[0-9a-f]` |
| `VaultView.DecodeHex` | src/password_manager_frontend/src/dashboard.jsx:137-139 | a successful decode consumes two characters per byte |
| `VaultView.DecodeRenderHex` | src/password_manager_frontend/src/dashboard.jsx:137-139 | decoding the rendering gives back the bytes |
| `VaultView.RenderHexInjective` | src/password_manager_frontend/src/dashboard.jsx:137-139 | distinct byte strings render to distinct strings |
| `Gateway.StoreCredentials` | src/password_manager_frontend/src/query.js:27-34 | when reached, the backend gains the entry at the end; on failure the backend is unchanged and nothing is reported |
| `Gateway.GetCredentials` | src/password_manager_frontend/src/query.js:36-45 | when reached, the principal's entries; on failure None (null) |
| `Gateway.EditCredentials` | src/password_manager_frontend/src/query.js:47-54 | when reached, `edit_entry`'s effect on the first match; on failure no change |
| `Gateway.DeleteCredentials` | src/password_manager_frontend/src/query.js:56-63 | when reached, every matching entry is removed; on failure no change |
| `DashboardComponent.Dashboard.constructor` | src/password_manager_frontend/src/dashboard.jsx:18-28 | the initial hook values: no flags, empty term, closed form, empty draft, no principal, loading, empty list |
| `DashboardComponent.Dashboard.CheckAuthentication` | src/password_manager_frontend/src/dashboard.jsx:47-70 | always ends with `isLoading == false`; adopts the principal only when authenticated, otherwise redirects to "/" and keeps the principal |
| `DashboardComponent.Dashboard.FetchCredentials` | src/password_manager_frontend/src/dashboard.jsx:75-86 | no request without a principal; otherwise exactly one fetch, adopted only when it is non-null |
| `DashboardComponent.Dashboard.Mount` | src/password_manager_frontend/src/dashboard.jsx:46-89 | from a fresh page: loading cleared; one fetch for a non-empty authenticated principal and the list equals the backend's view when it is reached; no request and a redirect otherwise |
| `DashboardComponent.Dashboard.TogglePasswordVisibility` | src/password_manager_frontend/src/dashboard.jsx:91-96 | flips the chosen row's visibility and no other row's |
| `DashboardComponent.Dashboard.HandleSubmit` | src/password_manager_frontend/src/dashboard.jsx:102-132 | no principal: no request and no change. Otherwise: store then fetch; form closed; draft reset to three empty strings; list replaced only by a non-null refetch; if both calls get through, the list is the old backend view plus the new entry |
| `DashboardComponent.Dashboard.GenerateRandomPassword` | src/password_manager_frontend/src/dashboard.jsx:134-141 | only the draft's password changes; it becomes 32 lower-case hex digits that decode back to the 16 random bytes |
| `DashboardComponent.Dashboard.HandleDelete` | src/password_manager_frontend/src/dashboard.jsx:143-162 | no principal or declined confirm: no request and no change. Otherwise: delete then fetch; list replaced only by a non-null refetch; if both calls get through, no listed entry has the deleted site |
| `DashboardComponent.Dashboard.HandleLogout` | src/password_manager_frontend/src/dashboard.jsx:35-44 | on success the principal is dropped and the page goes to "/"; on failure nothing changes |

## Left out

- The `Mutex` and `lazy_static` global and the `.lock().unwrap()` calls are not modelled. The store is a single-owner object, and each canister call runs to completion.
- Candid encoding and the `#[query]`/`#[update]` attributes are not modelled. Principals are plain strings compared for equality.
- `Principal.fromText` is treated as the identity. It could throw only on malformed text, and the principal text always comes from `toString()`. For that reason the `catch` branches of `handleSubmit` and `handleDelete` have no reachable path in the model.
- Asynchrony is not modelled. Each handler runs to completion before the next starts, so the races between overlapping refetches are outside the model.
- The identity provider (`AuthClient.create`, `isAuthenticated`, `getIdentity`, `logout`) is reduced to its answer: the `AuthProbe` value, or the `succeeded` flag of `HandleLogout`.
- `crypto.getRandomValues` is an input: the 16 random bytes. Whether they are random is not modelled.
- `confirm()` is an input: the `confirmed` flag.
- Transport outcomes are inputs: the `reached` flags. A failure after the backend applied an update is represented as `reached`, because the client cannot tell it apart.
- `copyToClipboard` is not modelled. It changes no component state and writes to the platform clipboard.
- The `onChange` setters for the search term and the draft fields, and the buttons that open or cancel the add form, are not modelled as methods. Each assigns one field.
- JSX rendering, the loading screen, and the masked or revealed password text are not modelled. This includes the fact that reveal flags are keyed by the row index of the filtered list.
- `console` logging is not modelled.
- `toLowerCase` folds only ASCII letters. Full Unicode case mapping is not modelled.
- `landing.jsx`, `App.jsx` and `main.jsx` (marketing page, routing, bootstrap) are not part of this model.
