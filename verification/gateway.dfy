/**
 * The client's wrappers around the backend actor. Each wrapper either reaches
 * the backend or fails in transport; the `reached` parameter says which. The
 * mutating wrappers swallow a failure, so the caller cannot tell the two
 * apart; the reading wrapper turns a failure into `None` (JavaScript `null`).
 */
module Gateway {
  import opened Wrappers
  import opened Backend

  /** A remote call the client issues, whether or not it then reaches the backend. */
  datatype Request =
    | AddRequest(principalId: Principal, site: string, username: string, password: string)
    | GetRequest(principalId: Principal)
    | EditRequest(principalId: Principal, site: string, username: string, password: string)
    | DeleteRequest(principalId: Principal, site: string)

  /** `storeCredentials`: `add_entry` on the backend; a failure is swallowed. */
  method StoreCredentials(backend: PasswordManager, principalId: Principal, site: string,
                          username: string, password: string, reached: bool)
    modifies backend
    ensures reached ==> backend.entries == old(backend.entries) + [NewEntry(principalId, site, username, password)]
    ensures !reached ==> backend.entries == old(backend.entries)
  {
    if reached {
      backend.AddEntry(principalId, site, username, password);
    }
  }

  /** `getCredentials`: the principal's entries, or `None` when the call fails. */
  method GetCredentials(backend: PasswordManager, principalId: Principal, reached: bool)
    returns (credentials: Option<seq<PasswordEntry>>)
    ensures reached ==> credentials == Some(backend.GetEntries(principalId))
    ensures !reached ==> credentials == None
  {
    if reached {
      credentials := Some(backend.GetEntries(principalId));
    } else {
      credentials := None;
    }
  }

  /** `editCredentials`: `edit_entry` on the backend; its boolean answer is dropped. */
  method EditCredentials(backend: PasswordManager, principalId: Principal, site: string,
                         username: string, password: string, reached: bool)
    modifies backend
    ensures !reached ==> backend.entries == old(backend.entries)
    ensures reached ==> match FirstMatch(old(backend.entries), principalId, site)
      case None => backend.entries == old(backend.entries)
      case Some(i) =>
        backend.entries == old(backend.entries)[i := old(backend.entries)[i].(username := username, password := password)]
  {
    if reached {
      var _ := backend.EditEntry(principalId, site, username, password);
    }
  }

  /** `deleteCredentials`: `delete_entry` on the backend; its boolean answer is dropped. */
  method DeleteCredentials(backend: PasswordManager, principalId: Principal, site: string, reached: bool)
    modifies backend
    ensures reached ==> backend.entries == Retained(old(backend.entries), principalId, site)
    ensures !reached ==> backend.entries == old(backend.entries)
  {
    if reached {
      var _ := backend.DeleteEntry(principalId, site);
    }
  }
}
