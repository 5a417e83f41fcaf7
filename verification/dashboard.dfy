/**
 * The dashboard component as a state machine. Its React state hooks are the
 * fields of `Dashboard`; its handlers are methods. What the browser and the
 * network decide is passed in: the identity provider's answer, the user's
 * answer to the confirm dialog, the random bytes, and whether each remote
 * call reaches the backend. Every handler returns the remote calls it issued.
 */
module DashboardComponent {
  import opened Wrappers
  import opened Collections
  import opened Backend
  import opened VaultView
  import opened Gateway

  /** The add-form draft, `newPassword`. */
  datatype Draft = Draft(username: string, password: string, site: string)

  const EmptyDraft := Draft("", "", "")

  /** What the identity provider reports when the dashboard asks about the session. */
  datatype AuthProbe =
    | Authenticated(principal: string)  // `isAuthenticated()` held; the principal's text
    | NotAuthenticated                  // `isAuthenticated()` was false
    | ProviderError                     // creating the client or asking it threw

  /** The page `window.location.href` is set to when the user must log in. */
  const LandingPage := "/"

  class Dashboard {
    var showPassword: map<nat, bool>
    var searchTerm: string
    var showAddForm: bool
    var newPassword: Draft
    var principalId: Option<string>
    var isLoading: bool
    var passwords: seq<PasswordEntry>
    /** The last navigation the page requested; `None` while it stays. */
    var location: Option<string>

    /** The initial values of the state hooks. */
    constructor ()
      ensures showPassword == map[] && searchTerm == "" && !showAddForm && newPassword == EmptyDraft
      ensures principalId == None && isLoading && passwords == [] && location == None
    {
      showPassword := map[];
      searchTerm := "";
      showAddForm := false;
      newPassword := EmptyDraft;
      principalId := None;
      isLoading := true;
      passwords := [];
      location := None;
    }

    /** JavaScript truthiness of `principalId`: neither null nor the empty string. */
    predicate HasPrincipal()
      reads this
    {
      principalId.Some? && principalId.value != ""
    }

    /**
     * `filteredPasswords` over the current state: the rows the page lists,
     * the fetched entries the search term selects, in list order.
     */
    function Visible(): (r: seq<PasswordEntry>)
      reads this
      ensures forall i | 0 <= i < |r| :: r[i] in passwords && SearchHit(r[i], searchTerm)
      ensures forall i | 0 <= i < |passwords| && SearchHit(passwords[i], searchTerm) :: passwords[i] in r
      ensures IsSubsequence(r, passwords)
      ensures searchTerm == "" ==> r == passwords
    {
      EmptySearchKeepsAll(passwords);
      FilteredPasswords(passwords, searchTerm)
    }

    /**
     * `checkAuthentication`: adopts the principal when the provider reports a
     * session, sends the browser to the landing page otherwise, and always
     * clears `isLoading` on the way out.
     */
    method CheckAuthentication(probe: AuthProbe)
      modifies this`isLoading, this`principalId, this`location
      ensures !isLoading
      ensures probe.Authenticated? ==> principalId == Some(probe.principal) && location == old(location)
      ensures !probe.Authenticated? ==> principalId == old(principalId) && location == Some(LandingPage)
    {
      isLoading := true;
      match probe {
        case Authenticated(p) =>
          principalId := Some(p);
        case NotAuthenticated =>
          location := Some(LandingPage);
        case ProviderError =>
          location := Some(LandingPage);
      }
      isLoading := false;
    }

    /**
     * `fetchCredentials`: without a principal, no call; otherwise one fetch,
     * whose result replaces the list only when it is not null.
     */
    method FetchCredentials(backend: PasswordManager, reached: bool) returns (sent: seq<Request>)
      modifies this`passwords
      ensures !HasPrincipal() ==> sent == [] && passwords == old(passwords)
      ensures HasPrincipal() ==> sent == [GetRequest(principalId.value)]
      ensures HasPrincipal() && reached ==> passwords == backend.GetEntries(principalId.value)
      ensures !reached ==> passwords == old(passwords)
    {
      sent := [];
      if HasPrincipal() {
        var p := principalId.value;
        sent := [GetRequest(p)];
        var credentials := GetCredentials(backend, p, reached);
        if credentials.Some? {
          passwords := credentials.value;
        }
      }
    }

    /**
     * The two mount effects: the fetch effect first runs with no principal,
     * the session check then settles the principal, and a changed principal
     * runs the fetch effect again.
     */
    method Mount(probe: AuthProbe, backend: PasswordManager, reached: bool) returns (sent: seq<Request>)
      requires principalId == None
      modifies this`isLoading, this`principalId, this`location, this`passwords
      ensures !isLoading
      ensures probe.Authenticated? ==> principalId == Some(probe.principal) && location == old(location)
      ensures !probe.Authenticated? ==> principalId == None && location == Some(LandingPage)
      ensures probe.Authenticated? && probe.principal != "" ==>
        && sent == [GetRequest(probe.principal)]
        && passwords == (if reached then backend.GetEntries(probe.principal) else old(passwords))
      ensures !(probe.Authenticated? && probe.principal != "") ==> sent == [] && passwords == old(passwords)
    {
      var before := principalId;
      sent := FetchCredentials(backend, reached);
      CheckAuthentication(probe);
      if principalId != before {
        var again := FetchCredentials(backend, reached);
        sent := sent + again;
      }
    }

    /** `togglePasswordVisibility`: flips the flag of one row. */
    method TogglePasswordVisibility(id: nat)
      modifies this`showPassword
      ensures showPassword == Toggle(old(showPassword), id)
      ensures Shown(showPassword, id) == !Shown(old(showPassword), id)
      ensures forall k | k != id :: Shown(showPassword, k) == Shown(old(showPassword), k)
    {
      showPassword := Toggle(showPassword, id);
    }

    /**
     * `handleSubmit`: without a principal, nothing. Otherwise the draft is
     * stored, the form is closed and cleared, and the list is refetched; a
     * null refetch leaves the list as it was.
     */
    method HandleSubmit(backend: PasswordManager, storeReached: bool, fetchReached: bool)
      returns (sent: seq<Request>)
      modifies this`showAddForm, this`newPassword, this`passwords, backend
      ensures !HasPrincipal() ==>
        && sent == []
        && backend.entries == old(backend.entries)
        && showAddForm == old(showAddForm) && newPassword == old(newPassword) && passwords == old(passwords)
      ensures HasPrincipal() ==>
        var p, d := principalId.value, old(newPassword);
        && sent == [AddRequest(p, d.site, d.username, d.password), GetRequest(p)]
        && backend.entries == (if storeReached
                               then old(backend.entries) + [NewEntry(p, d.site, d.username, d.password)]
                               else old(backend.entries))
        && !showAddForm && newPassword == EmptyDraft
        && passwords == (if fetchReached then backend.GetEntries(p) else old(passwords))
      ensures HasPrincipal() && storeReached && fetchReached ==>
        var p, d := principalId.value, old(newPassword);
        passwords == old(backend.GetEntries(p)) + [NewEntry(p, d.site, d.username, d.password)]
    {
      if !HasPrincipal() {
        return [];
      }
      var p, d := principalId.value, newPassword;
      ghost var stored := backend.entries;
      StoreCredentials(backend, p, d.site, d.username, d.password, storeReached);
      if storeReached {
        AddShowsOnlyToOwner(stored, NewEntry(p, d.site, d.username, d.password), p);
        assert EntriesOf(backend.entries, p) == EntriesOf(stored, p) + [NewEntry(p, d.site, d.username, d.password)];
      }
      showAddForm := false;
      newPassword := EmptyDraft;
      var updated := GetCredentials(backend, p, fetchReached);
      if updated.Some? {
        passwords := updated.value;
      }
      sent := [AddRequest(p, d.site, d.username, d.password), GetRequest(p)];
    }

    /**
     * `generateRandomPassword`: replaces only the draft's password, by the
     * 32-digit lower-case hexadecimal rendering of 16 random bytes.
     */
    method GenerateRandomPassword(random: seq<Byte>)
      requires |random| == PasswordBytes
      modifies this`newPassword
      ensures newPassword.site == old(newPassword).site && newPassword.username == old(newPassword).username
      ensures newPassword.password == RenderHex(random)
      ensures |newPassword.password| == 32
      ensures forall i | 0 <= i < 32 :: IsHexDigit(newPassword.password[i])
      ensures DecodeHex(newPassword.password) == Some(random)
    {
      newPassword := newPassword.(password := RenderHex(random));
      DecodeRenderHex(random);
    }

    /**
     * `handleDelete`: without a principal, or when the user declines the
     * confirm dialog, nothing. Otherwise the key is deleted and the list is
     * refetched; a null refetch leaves the list as it was.
     */
    method HandleDelete(backend: PasswordManager, site: string, confirmed: bool,
                        deleteReached: bool, fetchReached: bool) returns (sent: seq<Request>)
      modifies this`passwords, backend
      ensures !(HasPrincipal() && confirmed) ==>
        sent == [] && backend.entries == old(backend.entries) && passwords == old(passwords)
      ensures HasPrincipal() && confirmed ==>
        var p := principalId.value;
        && sent == [DeleteRequest(p, site), GetRequest(p)]
        && backend.entries == (if deleteReached then Retained(old(backend.entries), p, site)
                               else old(backend.entries))
        && passwords == (if fetchReached then backend.GetEntries(p) else old(passwords))
      ensures HasPrincipal() && confirmed && deleteReached && fetchReached ==>
        forall i | 0 <= i < |passwords| :: passwords[i].site != site
    {
      if !HasPrincipal() {
        return [];
      }
      if !confirmed {
        return [];
      }
      var p := principalId.value;
      DeleteCredentials(backend, p, site, deleteReached);
      var updated := GetCredentials(backend, p, fetchReached);
      if updated.Some? {
        passwords := updated.value;
      }
      sent := [DeleteRequest(p, site), GetRequest(p)];
    }

    /**
     * `handleLogout`: after a successful logout the principal is dropped and
     * the browser goes to the landing page; a failing logout changes nothing.
     * The fetched list is not cleared.
     */
    method HandleLogout(succeeded: bool)
      modifies this`principalId, this`location
      ensures succeeded ==> principalId == None && location == Some(LandingPage)
      ensures !succeeded ==> principalId == old(principalId) && location == old(location)
    {
      if succeeded {
        principalId := None;
        location := Some(LandingPage);
      }
    }
  }

  /**
   * A session from an empty store: the user saves one credential and then
   * deletes it; the list shows the entry and then nothing.
   */
  method SaveThenDeleteSession(p: Principal)
    requires p != ""
  {
    var backend := new PasswordManager();
    var page := new Dashboard();
    var sent := page.Mount(Authenticated(p), backend, true);
    assert backend.entries == [] && backend.GetEntries(p) == [];
    assert page.passwords == [];

    var saved := NewEntry(p, "example.com", "alice", "x1y2");
    page.newPassword := Draft("alice", "x1y2", "example.com");
    sent := page.HandleSubmit(backend, true, true);
    assert backend.entries == [saved];
    assert page.passwords == [saved];

    sent := page.HandleDelete(backend, "example.com", true, true, true);
    assert backend.entries == Retained([saved], p, "example.com");
    assert Matches(saved, p, "example.com");
    assert backend.entries == [];
    assert page.passwords == [];
  }
}
