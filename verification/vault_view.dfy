/**
 * The pure parts of the dashboard: the search filter over the fetched list,
 * the per-row reveal flags, and the hexadecimal rendering of random bytes
 * used by the password generator.
 */
module VaultView {
  import opened Wrappers
  import opened Collections
  import opened Backend

  // ---------------------------------------------------------------------
  // Search: case-insensitive substring match on site or username
  // ---------------------------------------------------------------------

  /** `toLowerCase` on one character, restricted to ASCII letters. */
  function Lower(c: char): char
  {
    if 'A' <= c <= 'Z' then (c as int - 'A' as int + 'a' as int) as char else c
  }

  function LowerStr(s: string): (r: string)
    ensures |r| == |s|
  {
    seq(|s|, i requires 0 <= i < |s| => Lower(s[i]))
  }

  /** `needle` occurs in `hay` starting at position `i`. */
  predicate OccursAt(hay: string, needle: string, i: int)
  {
    0 <= i && i + |needle| <= |hay| && hay[i..i + |needle|] == needle
  }

  /** `String.prototype.includes`: some occurrence of `needle` in `hay`. */
  function Contains(hay: string, needle: string): (b: bool)
    ensures b <==> exists i :: OccursAt(hay, needle, i)
    decreases |hay|
  {
    if |needle| <= |hay| && hay[..|needle|] == needle then
      assert OccursAt(hay, needle, 0);
      true
    else if hay == [] then
      assert forall i :: !OccursAt(hay, needle, i);
      false
    else
      ContainsInTail(hay, needle);
      Contains(hay[1..], needle)
  }

  /** Past position 0, the occurrences in `hay` are those of its tail, shifted by one. */
  lemma ContainsInTail(hay: string, needle: string)
    requires hay != [] && !OccursAt(hay, needle, 0)
    ensures (exists i :: OccursAt(hay[1..], needle, i)) <==> (exists i :: OccursAt(hay, needle, i))
  {
    if i :| OccursAt(hay[1..], needle, i) {
      assert hay[1..][i..i + |needle|] == hay[i + 1..i + 1 + |needle|];
      assert OccursAt(hay, needle, i + 1);
    }
    if i :| OccursAt(hay, needle, i) {
      assert i != 0;
      assert hay[1..][i - 1..i - 1 + |needle|] == hay[i..i + |needle|];
      assert OccursAt(hay[1..], needle, i - 1);
    }
  }

  /** The dashboard's search predicate on one fetched entry. */
  predicate SearchHit(item: PasswordEntry, searchTerm: string)
  {
    Contains(LowerStr(item.site), LowerStr(searchTerm))
    || Contains(LowerStr(item.username), LowerStr(searchTerm))
  }

  function MatchesSearch(searchTerm: string): PasswordEntry -> bool
  {
    (item: PasswordEntry) => SearchHit(item, searchTerm)
  }

  /** `filteredPasswords`: the fetched entries the search term selects, in list order. */
  function FilteredPasswords(passwords: seq<PasswordEntry>, searchTerm: string): (r: seq<PasswordEntry>)
    ensures forall i | 0 <= i < |r| :: r[i] in passwords && SearchHit(r[i], searchTerm)
    ensures forall i | 0 <= i < |passwords| && SearchHit(passwords[i], searchTerm) :: passwords[i] in r
    ensures IsSubsequence(r, passwords)
  {
    FilterIsSubsequence(passwords, MatchesSearch(searchTerm));
    Filter(passwords, MatchesSearch(searchTerm))
  }

  /** An empty search term selects the whole list, unchanged. */
  lemma EmptySearchKeepsAll(passwords: seq<PasswordEntry>)
    ensures FilteredPasswords(passwords, "") == passwords
  {
    forall i | 0 <= i < |passwords| ensures MatchesSearch("")(passwords[i]) {
      assert OccursAt(LowerStr(passwords[i].site), LowerStr(""), 0);
    }
    FilterKeepsAll(passwords, MatchesSearch(""));
  }

  /** The search ignores the case of the term: terms equal up to case select the same entries. */
  lemma SearchIgnoresCase(passwords: seq<PasswordEntry>, term1: string, term2: string)
    requires LowerStr(term1) == LowerStr(term2)
    ensures FilteredPasswords(passwords, term1) == FilteredPasswords(passwords, term2)
  {
    FilterCongruent(passwords, MatchesSearch(term1), MatchesSearch(term2));
  }

  /** Each selected entry appears as often as in the list: nothing is duplicated or lost. */
  lemma SearchKeepsMultiplicity(passwords: seq<PasswordEntry>, searchTerm: string, item: PasswordEntry)
    ensures multiset(FilteredPasswords(passwords, searchTerm))[item]
         == if SearchHit(item, searchTerm) then multiset(passwords)[item] else 0
  {
    FilterMultiplicity(passwords, MatchesSearch(searchTerm));
  }

  // ---------------------------------------------------------------------
  // Reveal flags: `showPassword`, keyed by row index
  // ---------------------------------------------------------------------

  /** JavaScript truthiness of `flags[id]`: an absent key reads as `undefined`, i.e. false. */
  predicate Shown(flags: map<nat, bool>, id: nat)
  {
    id in flags && flags[id]
  }

  /** The updater `prev => ({ ...prev, [id]: !prev[id] })`. */
  function Toggle(flags: map<nat, bool>, id: nat): (r: map<nat, bool>)
    ensures Shown(r, id) == !Shown(flags, id)
    ensures r.Keys == flags.Keys + {id}
    ensures forall k | k in flags && k != id :: r[k] == flags[k]
  {
    flags[id := !Shown(flags, id)]
  }

  /** Toggling the same row twice restores every row's visibility. */
  lemma ToggleTwice(flags: map<nat, bool>, id: nat)
    ensures forall k :: Shown(Toggle(Toggle(flags, id), id), k) == Shown(flags, k)
    ensures id in flags ==> Toggle(Toggle(flags, id), id) == flags
  {
  }

  // ---------------------------------------------------------------------
  // Hexadecimal rendering of random bytes
  // ---------------------------------------------------------------------

  /** One element of a `Uint8Array`. */
  type Byte = b: int | 0 <= b < 256

  /** The number of random bytes the generator draws (`new Uint8Array(16)`). */
  const PasswordBytes := 16

  predicate IsHexDigit(c: char)
  {
    '0' <= c <= '9' || 'a' <= c <= 'f'
  }

  /** The lower-case digit of value `d`, as `Number.prototype.toString(16)` writes it. */
  function HexDigit(d: int): (c: char)
    requires 0 <= d < 16
    ensures IsHexDigit(c)
  {
    if d < 10 then ('0' as int + d) as char else ('a' as int + d - 10) as char
  }

  /** The value of a hexadecimal digit, or -1 for any other character. */
  function HexValue(c: char): (v: int)
    ensures IsHexDigit(c) ==> 0 <= v < 16 && HexDigit(v) == c
    ensures !IsHexDigit(c) ==> v == -1
  {
    if '0' <= c <= '9' then c as int - '0' as int
    else if 'a' <= c <= 'f' then c as int - 'a' as int + 10
    else -1
  }

  /** `n.toString(16)`: the shortest hexadecimal numeral of `n`. */
  function NumberToHex(n: nat): (r: string)
    ensures |r| >= 1
    ensures n < 16 <==> |r| == 1
    ensures forall i | 0 <= i < |r| :: IsHexDigit(r[i])
  {
    if n < 16 then [HexDigit(n)] else NumberToHex(n / 16) + [HexDigit(n % 16)]
  }

  /** `s.padStart(width, fill)` with a one-character fill. */
  function PadStart(s: string, width: nat, fill: char): (r: string)
    ensures |s| >= width ==> r == s
    ensures |s| < width ==> |r| == width && r[width - |s|..] == s
    ensures forall i | 0 <= i < |r| - |s| :: r[i] == fill
  {
    if |s| >= width then s else seq(width - |s|, _ => fill) + s
  }

  /** `b.toString(16).padStart(2, "0")`: always exactly the high and the low digit. */
  function ByteToHex(b: Byte): (r: string)
    ensures r == [HexDigit(b / 16), HexDigit(b % 16)]
  {
    var digits := NumberToHex(b);
    if b < 16 then
      assert digits == [HexDigit(b)];
      PadStart(digits, 2, '0')
    else
      assert digits == NumberToHex(b / 16) + [HexDigit(b % 16)];
      PadStart(digits, 2, '0')
  }

  /** `Array.from(bytes).map(b => ByteToHex(b)).join("")`. */
  function RenderHex(bytes: seq<Byte>): (r: string)
    ensures |r| == 2 * |bytes|
    ensures forall i | 0 <= i < |r| :: IsHexDigit(r[i])
  {
    if bytes == [] then "" else ByteToHex(bytes[0]) + RenderHex(bytes[1..])
  }

  /** Reads a rendering back, two digits per byte; fails on odd length or a non-digit. */
  function DecodeHex(s: string): (r: Option<seq<Byte>>)
    ensures r.Some? ==> |s| == 2 * |r.value|
  {
    if s == [] then Some([])
    else if |s| == 1 then None
    else
      var hi, lo := HexValue(s[0]), HexValue(s[1]);
      if hi < 0 || lo < 0 then None
      else match DecodeHex(s[2..])
        case None => None
        case Some(rest) => Some([hi * 16 + lo] + rest)
  }

  /** Rendering loses nothing: decoding it gives the bytes back. */
  lemma {:induction false} DecodeRenderHex(bytes: seq<Byte>)
    ensures DecodeHex(RenderHex(bytes)) == Some(bytes)
  {
    if bytes != [] {
      var b := bytes[0];
      var s := RenderHex(bytes);
      assert s == [HexDigit(b / 16), HexDigit(b % 16)] + RenderHex(bytes[1..]);
      assert s[2..] == RenderHex(bytes[1..]);
      DecodeRenderHex(bytes[1..]);
      assert HexValue(s[0]) == b / 16 && HexValue(s[1]) == b % 16;
      assert [b] + bytes[1..] == bytes;
    }
  }

  /** Distinct byte strings render to distinct passwords. */
  lemma RenderHexInjective(a: seq<Byte>, b: seq<Byte>)
    requires RenderHex(a) == RenderHex(b)
    ensures a == b
  {
    DecodeRenderHex(a);
    DecodeRenderHex(b);
  }
}
