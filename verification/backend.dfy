/**
 * The backend credential store: one in-memory list of password entries, each
 * tagged with the principal that owns it. Entries are addressed by the pair
 * (principal, site); nothing keeps that pair unique, so duplicates can exist.
 */
module Backend {
  import opened Wrappers
  import opened Collections

  /** An identity. The model only compares principals for equality. */
  type Principal = string

  datatype PasswordEntry = PasswordEntry(
    site: string,
    username: string,
    password: string,
    encrypted: bool,
    principalId: Principal)

  /** The entry answers to the key (principal, site). */
  predicate Matches(e: PasswordEntry, principalId: Principal, site: string)
  {
    e.principalId == principalId && e.site == site
  }

  /** The filter of `get_credentials!`. */
  function OwnedBy(principalId: Principal): PasswordEntry -> bool
  {
    (e: PasswordEntry) => e.principalId == principalId
  }

  /** The condition `delete_entry` hands to `retain`. */
  function NotMatching(principalId: Principal, site: string): PasswordEntry -> bool
  {
    (e: PasswordEntry) => !Matches(e, principalId, site)
  }

  /** The filter of the entries answering to (principal, site), used to count duplicates. */
  function MatchingKey(principalId: Principal, site: string): PasswordEntry -> bool
  {
    (e: PasswordEntry) => Matches(e, principalId, site)
  }

  /** The entry `add_entry` creates: stored in clear, owned by the caller. */
  function NewEntry(principalId: Principal, site: string, username: string, password: string): PasswordEntry
  {
    PasswordEntry(site, username, password, false, principalId)
  }

  /** `get_credentials!`: the entries of one principal, in stored order. */
  function EntriesOf(entries: seq<PasswordEntry>, principalId: Principal): (r: seq<PasswordEntry>)
    ensures forall i | 0 <= i < |r| :: r[i] in entries && r[i].principalId == principalId
    ensures forall i | 0 <= i < |entries| && entries[i].principalId == principalId :: entries[i] in r
    ensures IsSubsequence(r, entries)
    ensures forall x :: multiset(r)[x] == if x.principalId == principalId then multiset(entries)[x] else 0
  {
    FilterIsSubsequence(entries, OwnedBy(principalId));
    FilterMultiplicity(entries, OwnedBy(principalId));
    Filter(entries, OwnedBy(principalId))
  }

  /** The position of the first entry answering to (principal, site), as `find` locates it. */
  function FirstMatch(entries: seq<PasswordEntry>, principalId: Principal, site: string): (r: Option<nat>)
    ensures r.Some? ==> r.value < |entries| && Matches(entries[r.value], principalId, site)
    ensures r.Some? ==> forall j | 0 <= j < r.value :: !Matches(entries[j], principalId, site)
    ensures r.None? <==> forall j | 0 <= j < |entries| :: !Matches(entries[j], principalId, site)
  {
    if entries == [] then None
    else if Matches(entries[0], principalId, site) then Some(0)
    else match FirstMatch(entries[1..], principalId, site)
      case None => None
      case Some(i) => Some(i + 1)
  }

  /** The store after `delete_entry`: every entry answering to the key removed. */
  function Retained(entries: seq<PasswordEntry>, principalId: Principal, site: string): (r: seq<PasswordEntry>)
    ensures forall i | 0 <= i < |r| :: r[i] in entries && !Matches(r[i], principalId, site)
    ensures forall i | 0 <= i < |entries| && !Matches(entries[i], principalId, site) :: entries[i] in r
    ensures IsSubsequence(r, entries)
    ensures |r| < |entries| <==> exists i | 0 <= i < |entries| :: Matches(entries[i], principalId, site)
    ensures forall x :: multiset(r)[x] == if Matches(x, principalId, site) then 0 else multiset(entries)[x]
  {
    FilterMultiplicity(entries, NotMatching(principalId, site));
    FilterIsSubsequence(entries, NotMatching(principalId, site));
    FilterShrinks(entries, NotMatching(principalId, site));
    Filter(entries, NotMatching(principalId, site))
  }

  class PasswordManager {
    var entries: seq<PasswordEntry>

    /** `PasswordManager::default()`: the store starts empty. */
    constructor ()
      ensures entries == []
    {
      entries := [];
    }

    /** `add_entry`: appends unconditionally, without looking for an existing key. */
    method AddEntry(principalId: Principal, site: string, username: string, password: string)
      modifies this
      ensures entries == old(entries) + [NewEntry(principalId, site, username, password)]
      ensures !entries[|entries| - 1].encrypted
    {
      entries := entries + [NewEntry(principalId, site, username, password)];
    }

    /** `get_entries`: every entry of the principal, in stored order; reads only. */
    function GetEntries(principalId: Principal): (r: seq<PasswordEntry>)
      reads this
      ensures forall i | 0 <= i < |r| :: r[i] in entries && r[i].principalId == principalId
      ensures forall i | 0 <= i < |entries| && entries[i].principalId == principalId :: entries[i] in r
      ensures IsSubsequence(r, entries)
      ensures forall x :: multiset(r)[x] == if x.principalId == principalId then multiset(entries)[x] else 0
    {
      EntriesOf(entries, principalId)
    }

    /** `get_entry`: the first entry answering to (principal, site), or nothing. */
    function GetEntry(principalId: Principal, site: string): (r: Option<PasswordEntry>)
      reads this
      ensures r.None? <==> forall j | 0 <= j < |entries| :: !Matches(entries[j], principalId, site)
      ensures r.Some? ==> Matches(r.value, principalId, site)
      ensures r.Some? ==>
        exists i | 0 <= i < |entries| ::
          && entries[i] == r.value
          && forall j | 0 <= j < i :: !Matches(entries[j], principalId, site)
    {
      match FirstMatch(entries, principalId, site)
      case None => None
      case Some(i) => Some(entries[i])
    }

    /**
     * `edit_entry`: overwrites username and password of the first entry
     * answering to (principal, site) and reports whether there was one.
     */
    method EditEntry(principalId: Principal, site: string, newUsername: string, newPassword: string)
      returns (found: bool)
      modifies this
      ensures found <==> exists j | 0 <= j < |old(entries)| :: Matches(old(entries)[j], principalId, site)
      ensures !found ==> entries == old(entries)
      ensures |entries| == |old(entries)|
      ensures found ==>
        var i := FirstMatch(old(entries), principalId, site).value;
        && entries[i] == old(entries)[i].(username := newUsername, password := newPassword)
        && forall j | 0 <= j < |entries| && j != i :: entries[j] == old(entries)[j]
    {
      match FirstMatch(entries, principalId, site)
      case None =>
        found := false;
      case Some(i) =>
        entries := entries[i := entries[i].(username := newUsername, password := newPassword)];
        found := true;
    }

    /**
     * `delete_entry`: removes every entry answering to (principal, site) and
     * reports whether the store shrank.
     */
    method DeleteEntry(principalId: Principal, site: string) returns (removed: bool)
      modifies this
      ensures entries == Retained(old(entries), principalId, site)
      ensures removed <==> exists j | 0 <= j < |old(entries)| :: Matches(old(entries)[j], principalId, site)
    {
      var initialLength := |entries|;
      entries := Filter(entries, NotMatching(principalId, site));
      removed := |entries| < initialLength;
    }
  }

  /** Adding an entry shows it, last, to its owner and to nobody else. */
  lemma AddShowsOnlyToOwner(entries: seq<PasswordEntry>, e: PasswordEntry, viewer: Principal)
    ensures EntriesOf(entries + [e], viewer)
         == EntriesOf(entries, viewer) + (if e.principalId == viewer then [e] else [])
  {
    FilterAppend(entries, [e], OwnedBy(viewer));
  }

  /** `add_entry` does not deduplicate: the same key added twice answers twice more. */
  lemma AddKeepsDuplicates(entries: seq<PasswordEntry>, p: Principal, site: string,
                           u1: string, pw1: string, u2: string, pw2: string)
    ensures |Filter(entries + [NewEntry(p, site, u1, pw1)] + [NewEntry(p, site, u2, pw2)], MatchingKey(p, site))|
         == |Filter(entries, MatchingKey(p, site))| + 2
  {
    var e1, e2 := NewEntry(p, site, u1, pw1), NewEntry(p, site, u2, pw2);
    FilterAppend(entries + [e1], [e2], MatchingKey(p, site));
    FilterAppend(entries, [e1], MatchingKey(p, site));
  }

  /** After a delete nothing answers to the key any more. */
  lemma DeleteLeavesNoMatch(entries: seq<PasswordEntry>, p: Principal, site: string)
    ensures FirstMatch(Retained(entries, p, site), p, site) == None
    ensures forall e | e in EntriesOf(Retained(entries, p, site), p) :: e.site != site
  {
  }

  /** A second identical delete removes nothing and reports false. */
  lemma DeleteIdempotent(entries: seq<PasswordEntry>, p: Principal, site: string)
    ensures Retained(Retained(entries, p, site), p, site) == Retained(entries, p, site)
    ensures !exists j | 0 <= j < |Retained(entries, p, site)| :: Matches(Retained(entries, p, site)[j], p, site)
  {
    var once := Retained(entries, p, site);
    FilterKeepsAll(once, NotMatching(p, site));
  }

  /** A delete never changes what another principal sees. */
  lemma DeleteSparesOtherPrincipals(entries: seq<PasswordEntry>, p: Principal, site: string, q: Principal)
    requires q != p
    ensures EntriesOf(Retained(entries, p, site), q) == EntriesOf(entries, q)
  {
    FilterAbsorbs(entries, NotMatching(p, site), OwnedBy(q));
  }

  /** An edit never changes what another principal sees. */
  lemma EditSparesOtherPrincipals(entries: seq<PasswordEntry>, i: nat, u: string, pw: string, q: Principal)
    requires i < |entries| && entries[i].principalId != q
    ensures EntriesOf(entries[i := entries[i].(username := u, password := pw)], q) == EntriesOf(entries, q)
  {
    var edited := entries[i := entries[i].(username := u, password := pw)];
    assert edited == entries[..i] + [edited[i]] + entries[i + 1..];
    assert entries == entries[..i] + [entries[i]] + entries[i + 1..];
    FilterAppend(entries[..i] + [edited[i]], entries[i + 1..], OwnedBy(q));
    FilterAppend(entries[..i], [edited[i]], OwnedBy(q));
    FilterAppend(entries[..i] + [entries[i]], entries[i + 1..], OwnedBy(q));
    FilterAppend(entries[..i], [entries[i]], OwnedBy(q));
  }
}
