/**
 * Identifier extraction: stripping the `<n>:` type prefix from an identifier, and
 * pulling contact and conversation identifiers out of service URLs.
 *
 * The two URL patterns are regular expressions in the library; here each is a
 * hand-written matcher that accepts exactly what the expression accepts and
 * returns the same capture group, and the search tries start positions from the
 * left, as a regular-expression search does.
 */
module Identifiers {
  import opened Wrappers
  import opened Text

  /** The only way `noPrefix` fails: `split(":", 1)` yields a single piece, so index 1 is out of range. */
  datatype PrefixError = IndexError

  /**
   * Removes the type prefix (`8:`, `19:`, ...) of an identifier: everything up to and
   * including the first colon. `None` passes through; a string without a colon fails.
   */
  function NoPrefix(s: Option<string>): (r: Result<Option<string>, PrefixError>)
    ensures s.None? ==> r == Success(None)
    ensures s.Some? ==> (r.Success? <==> ':' in s.value)
    ensures s.Some? && r.Success? ==>
      r.value.Some? &&
      var t := r.value.value;
      var cut := |s.value| - |t| - 1;
      0 <= cut && s.value == s.value[..cut] + ":" + t && ':' !in s.value[..cut]
  {
    match s
    case None => Success(None)
    case Some(str) =>
      match FirstIndexOf(str, ':')
      case None => Failure(IndexError)
      case Some(k) =>
        assert str == str[..k] + ":" + str[k + 1..];
        Success(Some(str[k + 1..]))
  }

  /** Any prefix without a colon, a colon, then anything: `NoPrefix` recovers the part after the colon. */
  lemma NoPrefixInverse(prefix: string, rest: string)
    requires ':' !in prefix
    ensures NoPrefix(Some(prefix + ":" + rest)) == Success(Some(rest))
  {
    var s := prefix + ":" + rest;
    assert s[..|prefix|] == prefix;
    FirstIndexOfIs(s, ':', |prefix|);
    assert s[|prefix| + 1..] == rest;
  }

  // ---------------------------------------------------------------------------
  // Character classes of the two patterns

  /** `[0-9]` and `[A-Za-z0-9\.,:_\-]` */
  datatype CharClass = Digits | IdChars

  predicate IsDigit(c: char) {
    '0' <= c <= '9'
  }

  predicate InClass(c: char, k: CharClass) {
    match k
    case Digits => IsDigit(c)
    case IdChars =>
      'A' <= c <= 'Z' || 'a' <= c <= 'z' || IsDigit(c) ||
      c == '.' || c == ',' || c == ':' || c == '_' || c == '-'
  }

  predicate AllIn(s: string, k: CharClass) {
    forall m :: 0 <= m < |s| ==> InClass(s[m], k)
  }

  /** `s` holds the literal `lit` starting at position `i`. */
  predicate LiteralAt(s: string, i: nat, lit: string) {
    i + |lit| <= |s| && s[i..i + |lit|] == lit
  }

  /** End of the longest run of `k` characters starting at `i`: what a greedy `[..]+` consumes. */
  function RunEnd(s: string, i: nat, k: CharClass): (j: nat)
    requires i <= |s|
    ensures i <= j <= |s|
    ensures forall m :: i <= m < j ==> InClass(s[m], k)
    ensures j == |s| || !InClass(s[j], k)
    decreases |s| - i
  {
    if i < |s| && InClass(s[i], k) then RunEnd(s, i + 1, k) else i
  }

  /** A run that is all `k` and cannot be extended is the one `RunEnd` finds. */
  lemma RunEndIs(s: string, i: nat, j: nat, k: CharClass)
    requires i <= j <= |s|
    requires forall m :: i <= m < j ==> InClass(s[m], k)
    requires j == |s| || !InClass(s[j], k)
    ensures RunEnd(s, i, k) == j
  {
  }

  /**
   * Matches `[0-9]+:[A-Za-z0-9\.,:_\-]+` at `i` and returns the position of the colon
   * and the end of the match. Digits never include `:`, so the greedy digit run is the
   * only one a colon can follow; nothing follows the second run in either pattern
   * except an optional group, so its greedy (longest) run is the one kept.
   */
  function PrefixedIdAt(s: string, i: nat): (r: Option<(nat, nat)>)
    requires i <= |s|
    ensures r.Some? ==> IdRunsAt(s, i, r.value.0, r.value.1)
  {
    var d := RunEnd(s, i, Digits);
    if d == i || d == |s| || s[d] != ':' then None
    else
      var e := RunEnd(s, d + 1, IdChars);
      if e == d + 1 then None else Some((d, e))
  }

  /**
   * `s[i..e]` is `[0-9]+:[A-Za-z0-9\.,:_\-]+` with the colon at `d`, and no identifier
   * character follows: what the greedy runs of either pattern consume from `i`.
   */
  predicate IdRunsAt(s: string, i: nat, d: nat, e: nat) {
    i < d && d + 1 < e <= |s| && s[d] == ':' && AllIn(s[i..d], Digits) && AllIn(s[d + 1..e], IdChars) &&
    (e == |s| || !InClass(s[e], IdChars))
  }

  /** `PrefixedIdAt` finds every such run, so there is at most one at each position. */
  lemma PrefixedIdAtFinds(s: string, i: nat)
    requires i <= |s|
    ensures forall d: nat, e: nat :: IdRunsAt(s, i, d, e) ==> PrefixedIdAt(s, i) == Some((d, e))
  {
    forall d: nat, e: nat | IdRunsAt(s, i, d, e)
      ensures PrefixedIdAt(s, i) == Some((d, e))
    {
      assert forall m :: i <= m < d ==> s[m] == s[i..d][m - i];
      RunEndIs(s, i, d, Digits);
      assert forall m :: d + 1 <= m < e ==> s[m] == s[d + 1..e][m - d - 1];
      RunEndIs(s, d + 1, e, IdChars);
    }
  }

  /** A `/` at `j`, then an identifier run from `j + 1` as `IdRunsAt` describes. */
  predicate SlashRunsAt(s: string, j: nat, d: nat, e: nat) {
    LiteralAt(s, j, "/") && IdRunsAt(s, j + 1, d, e)
  }

  // ---------------------------------------------------------------------------
  // Leftmost search, as `re.search` scans a pattern along the string

  /** A pattern anchored at a position of a URL: the capture when it matches there. */
  type Matcher = (string, nat) -> Option<string>

  /** The match of `matchAt` at the leftmost position from `i` to the end of `url` where it matches. */
  function Search(url: string, i: nat, matchAt: Matcher): Option<string>
    requires i <= |url|
    decreases |url| - i
  {
    var m := matchAt(url, i);
    if m.Some? then m
    else if i == |url| then None
    else Search(url, i + 1, matchAt)
  }

  /** The search from `i` fails exactly when no position from `i` on matches. */
  lemma {:induction false} SearchNone(url: string, i: nat, matchAt: Matcher)
    requires i <= |url|
    ensures Search(url, i, matchAt).None? <==> forall j :: i <= j <= |url| ==> matchAt(url, j).None?
    decreases |url| - i
  {
    if matchAt(url, i).None? && i < |url| {
      SearchNone(url, i + 1, matchAt);
    }
  }

  /** A successful search from `i` returns the match at the leftmost matching position. */
  lemma {:induction false} SearchFirst(url: string, i: nat, matchAt: Matcher)
    requires i <= |url|
    ensures Search(url, i, matchAt).Some? ==>
      exists j :: i <= j <= |url| && matchAt(url, j) == Search(url, i, matchAt) &&
        forall k :: i <= k < j ==> matchAt(url, k).None?
    decreases |url| - i
  {
    if matchAt(url, i).None? && i < |url| {
      SearchFirst(url, i + 1, matchAt);
      var r := Search(url, i + 1, matchAt);
      if r.Some? {
        var j :| i + 1 <= j <= |url| && matchAt(url, j) == r && forall k :: i + 1 <= k < j ==> matchAt(url, k).None?;
        assert forall k :: i <= k < j ==> matchAt(url, k).None?;
      }
    }
  }

  /** When no match starts in `[i, j)` and one starts at `j`, the search from `i` returns it. */
  lemma {:induction false} SearchFrom(url: string, i: nat, j: nat, matchAt: Matcher)
    requires i <= j <= |url|
    requires forall k :: i <= k < j ==> matchAt(url, k).None?
    requires matchAt(url, j).Some?
    ensures Search(url, i, matchAt) == matchAt(url, j)
    decreases j - i
  {
    if i < j {
      SearchFrom(url, i + 1, j, matchAt);
    }
  }

  // ---------------------------------------------------------------------------
  // userToId: users(/ME/contacts)?/[0-9]+:([A-Za-z0-9\.,:_\-]+), group 2

  /** The part of the user pattern after the optional group: `/[0-9]+:(ID)`; returns ID. */
  function UserTail(url: string, j: nat): (r: Option<string>)
    requires j <= |url|
    ensures r.Some? ==> |r.value| > 0 && AllIn(r.value, IdChars)
    ensures r.Some? ==> exists d :: IdAfterColon(url, d, r.value)
  {
    if !LiteralAt(url, j, "/") then None
    else
      match PrefixedIdAt(url, j + 1)
      case None => None
      case Some((d, e)) =>
        assert IsDigit(url[d - 1]) by { assert url[j + 1..d][d - 1 - (j + 1)] == url[d - 1]; }
        assert IdAfterColon(url, d, url[d + 1..e]);
        Some(url[d + 1..e])
  }

  /**
   * The tail matches exactly when `/` and an identifier run follow, and it captures
   * that whole maximal run.
   */
  lemma UserTailRuns(url: string, j: nat)
    requires j <= |url|
    ensures UserTail(url, j).Some? <==> exists d: nat, e: nat :: SlashRunsAt(url, j, d, e)
    ensures forall d: nat, e: nat :: SlashRunsAt(url, j, d, e) ==> UserTail(url, j) == Some(url[d + 1..e])
  {
    if LiteralAt(url, j, "/") {
      PrefixedIdAtFinds(url, j + 1);
      var m := PrefixedIdAt(url, j + 1);
      if m.Some? {
        assert SlashRunsAt(url, j, m.value.0, m.value.1);
      }
    }
  }

  /** `url[d + 1..]` begins with `v`, a maximal run of identifier characters right after a `digits:` prefix. */
  ghost predicate IdAfterColon(url: string, d: nat, v: string) {
    0 < d && d + 1 + |v| <= |url| && url[d] == ':' && IsDigit(url[d - 1]) &&
    url[d + 1..d + 1 + |v|] == v &&
    (d + 1 + |v| == |url| || !InClass(url[d + 1 + |v|], IdChars))
  }

  /**
   * The user pattern anchored at `i`. The optional group is greedy, so `/ME/contacts`
   * is tried first and the empty alternative only when that fails, as the regular
   * expression's backtracking does.
   */
  function MatchUserAt(url: string, i: nat): (r: Option<string>)
    requires i <= |url|
    ensures r.Some? ==> LiteralAt(url, i, "users")
    ensures r.Some? ==> |r.value| > 0 && AllIn(r.value, IdChars)
    ensures r.Some? ==> exists d :: IdAfterColon(url, d, r.value)
  {
    if !LiteralAt(url, i, "users") then None
    else
      var viaContacts := if LiteralAt(url, i + 5, "/ME/contacts") then UserTail(url, i + 17) else None;
      if viaContacts.Some? then viaContacts else UserTail(url, i + 5)
  }

  /**
   * The user pattern matches at `i` exactly when `users` starts there and one of the two
   * branches matches after it; the `/ME/contacts` branch wins whenever it matches.
   */
  lemma MatchUserAtBranches(url: string, i: nat)
    requires i <= |url|
    ensures MatchUserAt(url, i).Some? <==>
      LiteralAt(url, i, "users") &&
      ((LiteralAt(url, i + 5, "/ME/contacts") && UserTail(url, i + 17).Some?) || UserTail(url, i + 5).Some?)
    ensures LiteralAt(url, i, "users") && LiteralAt(url, i + 5, "/ME/contacts") && UserTail(url, i + 17).Some? ==>
      MatchUserAt(url, i) == UserTail(url, i + 17)
    ensures LiteralAt(url, i, "users") && !(LiteralAt(url, i + 5, "/ME/contacts") && UserTail(url, i + 17).Some?) ==>
      MatchUserAt(url, i) == UserTail(url, i + 5)
  {
  }

  /**
   * The pattern matches at `i` exactly when `users` starts there and a slash and an
   * identifier run follow where the `/[0-9]+:` part is tried; the capture is that run.
   */
  lemma MatchUserAtRuns(url: string, i: nat)
    requires i <= |url|
    ensures MatchUserAt(url, i).Some? <==>
      LiteralAt(url, i, "users") && exists d: nat, e: nat :: SlashRunsAt(url, UserSlashAt(url, i), d, e)
    ensures forall d: nat, e: nat :: LiteralAt(url, i, "users") && SlashRunsAt(url, UserSlashAt(url, i), d, e) ==>
      MatchUserAt(url, i) == Some(url[d + 1..e])
  {
    if LiteralAt(url, i, "users") {
      var j := UserSlashAt(url, i);
      UserTailRuns(url, j);
      assert MatchUserAt(url, i) == UserTail(url, j) by {
        if LiteralAt(url, i + 5, "/ME/contacts") {
          DirectFailsBeforeContacts(url, i);
        }
      }
    }
  }

  /**
   * Where the `/[0-9]+:` part of the user pattern is tried: after `/ME/contacts` when that
   * follows `users`, and right after `users` otherwise.
   */
  function UserSlashAt(url: string, i: nat): nat {
    if LiteralAt(url, i + 5, "/ME/contacts") then i + 17 else i + 5
  }

  /** Text starting `/M` is no `/[0-9]+:` tail, so the direct branch fails wherever `/ME/contacts` follows. */
  lemma DirectFailsBeforeContacts(url: string, i: nat)
    requires i + 5 <= |url| && LiteralAt(url, i + 5, "/ME/contacts")
    ensures UserTail(url, i + 5).None?
  {
    assert url[i + 6] == url[i + 5..i + 17][1] == 'M';
    assert RunEnd(url, i + 6, Digits) == i + 6;
  }

  /**
   * The contact identifier in a `users/<n>:<id>` or `users/ME/contacts/<n>:<id>` URL,
   * without its `<n>:` prefix; `None` when no part of the URL matches.
   */
  function UserToId(url: string): Option<string> {
    Search(url, 0, UserMatch)
  }

  /** The user pattern at any position; nothing matches past the end of the URL. */
  function UserMatch(url: string, i: nat): Option<string> {
    if i <= |url| then MatchUserAt(url, i) else None
  }

  /**
   * Extraction gives `None` exactly when the pattern matches nowhere in the URL, and
   * otherwise the capture of the match at the leftmost matching position.
   */
  lemma UserToIdSpec(url: string)
    ensures UserToId(url).None? <==> forall j :: 0 <= j <= |url| ==> MatchUserAt(url, j).None?
    ensures UserToId(url).Some? ==>
      exists j :: 0 <= j <= |url| && MatchUserAt(url, j) == UserToId(url) &&
        forall k :: 0 <= k < j ==> MatchUserAt(url, k).None?
    ensures UserToId(url).Some? ==> |UserToId(url).value| > 0 && AllIn(UserToId(url).value, IdChars)
    ensures UserToId(url).Some? ==> exists d :: IdAfterColon(url, d, UserToId(url).value)
  {
    var r := UserToId(url);
    assert r.None? <==> forall j :: 0 <= j <= |url| ==> MatchUserAt(url, j).None? by {
      SearchNone(url, 0, UserMatch);
      assert forall j :: 0 <= j <= |url| ==> UserMatch(url, j) == MatchUserAt(url, j);
    }
    if r.Some? {
      SearchFirst(url, 0, UserMatch);
      var j :| 0 <= j <= |url| && UserMatch(url, j) == r && forall k :: 0 <= k < j ==> UserMatch(url, k).None?;
      assert MatchUserAt(url, j) == r;
      assert forall k :: 0 <= k < j ==> MatchUserAt(url, k).None? by {
        assert forall k :: 0 <= k < j ==> UserMatch(url, k) == MatchUserAt(url, k);
      }
    }
  }

  /** A URL without the letter `u` has no `users` segment, so no contact identifier. */
  lemma UserToIdNeedsUsers(url: string)
    requires 'u' !in url
    ensures UserToId(url) == None
  {
    NoUserMatchIn(url, url);
    assert !LiteralAt(url, |url|, "users");
    SearchNone(url, 0, UserMatch);
  }

  /** No match of the user pattern starts where `users` does not. */
  lemma NoUserMatchWithout(url: string, n: nat)
    requires n <= |url| + 1
    requires forall j :: 0 <= j < n ==> !LiteralAt(url, j, "users")
    ensures forall j :: 0 <= j < n && j <= |url| ==> MatchUserAt(url, j).None?
  {
  }

  /** A URL with no `users` segment anywhere yields no contact identifier. */
  lemma UserToIdWithoutUsers(url: string)
    requires forall j :: 0 <= j <= |url| ==> !LiteralAt(url, j, "users")
    ensures UserToId(url) == None
  {
    NoUserMatchWithout(url, |url| + 1);
    UserToIdSpec(url);
  }

  /** A match of the user pattern begins with `u`, so no match starts inside a prefix without one. */
  lemma NoUserMatchIn(url: string, pre: string)
    requires |pre| <= |url| && url[..|pre|] == pre && 'u' !in pre
    ensures forall j :: 0 <= j < |pre| ==> MatchUserAt(url, j).None?
  {
    forall j | 0 <= j < |pre|
      ensures MatchUserAt(url, j).None?
    {
      assert url[j] == pre[j];
      if j + 5 <= |url| {
        assert url[j..j + 5][0] == url[j];
      }
    }
  }

  /** A string laid out from position `i` on holds its leading literal there. */
  lemma LiteralAtPrefix(s: string, i: nat, lit: string, rest: string)
    requires i <= |s| && s[i..] == lit + rest
    ensures LiteralAt(s, i, lit)
  {
    assert s[i..i + |lit|] == s[i..][..|lit|];
    assert (lit + rest)[..|lit|] == lit;
  }

  /** The identifier characters of `id` followed by something that cannot extend them. */
  predicate EndsIdRun(id: string, rest: string) {
    |id| > 0 && AllIn(id, IdChars) && (rest == [] || !InClass(rest[0], IdChars))
  }

  /** `PrefixedIdAt` finds the `digits:id` laid out at `i`. */
  lemma PrefixedIdAtLayout(s: string, i: nat, digits: string, id: string, rest: string)
    requires |digits| > 0 && AllIn(digits, Digits) && EndsIdRun(id, rest)
    requires i <= |s| && s[i..] == digits + ":" + id + rest
    ensures PrefixedIdAt(s, i) == Some((i + |digits|, i + |digits| + 1 + |id|))
  {
    var d := i + |digits|;
    var e := d + 1 + |id|;
    assert forall m :: i <= m < d ==> s[m] == s[i..][m - i] == digits[m - i];
    assert s[d] == s[i..][|digits|] == ':';
    RunEndIs(s, i, d, Digits);
    assert forall m :: d + 1 <= m < e ==> s[m] == s[i..][m - i] == id[m - d - 1];
    if e < |s| {
      assert s[e] == s[i..][e - i] == rest[0];
    }
    RunEndIs(s, d + 1, e, IdChars);
  }

  /** `UserTail` returns the identifier run that `PrefixedIdAt` finds after the slash. */
  lemma UserTailIs(url: string, j: nat, d: nat, e: nat)
    requires j < |url| && LiteralAt(url, j, "/") && PrefixedIdAt(url, j + 1) == Some((d, e))
    ensures UserTail(url, j) == Some(url[d + 1..e])
  {
  }

  /** `UserTail` finds the identifier of `/digits:id` laid out at `j`. */
  lemma UserTailLayout(url: string, j: nat, digits: string, id: string, rest: string)
    requires |digits| > 0 && AllIn(digits, Digits) && EndsIdRun(id, rest)
    requires j <= |url| && url[j..] == "/" + (digits + ":" + id + rest)
    ensures UserTail(url, j) == Some(id)
  {
    LiteralAtPrefix(url, j, "/", digits + ":" + id + rest);
    SuffixAfter(url, j, "/", digits + ":" + id + rest);
    var d := j + 1 + |digits|;
    PrefixedIdAtLayout(url, j + 1, digits, id, rest);
    IdSlice(url, j + 1, digits, id, rest);
    UserTailIs(url, j, d, d + 1 + |id|);
  }

  /** What follows a leading literal laid out at `i`. */
  lemma SuffixAfter(s: string, i: nat, lit: string, rest: string)
    requires i <= |s| && s[i..] == lit + rest
    ensures s[i + |lit|..] == rest
  {
    assert s[i + |lit|..] == s[i..][|lit|..];
  }

  /** The identifier part of `digits:id` laid out at `i`. */
  lemma IdSlice(s: string, i: nat, digits: string, id: string, rest: string)
    requires i <= |s| && s[i..] == digits + ":" + id + rest
    ensures s[i + |digits| + 1..i + |digits| + 1 + |id|] == id
    ensures s[i..i + |digits| + 1 + |id|] == digits + ":" + id
  {
    var n := |digits| + 1;
    assert s[i + n..i + n + |id|] == s[i..][n..n + |id|];
    assert s[i..i + n + |id|] == s[i..][..n + |id|];
  }

  /** The user pattern matches at `i` when `users/ME/contacts/digits:id` is laid out there. */
  lemma MatchUserAtContacts(url: string, i: nat, digits: string, id: string, rest: string)
    requires |digits| > 0 && AllIn(digits, Digits) && EndsIdRun(id, rest)
    requires i <= |url| && url[i..] == "users/ME/contacts/" + (digits + ":" + id + rest)
    ensures MatchUserAt(url, i) == Some(id)
  {
    var tail := "/" + (digits + ":" + id + rest);
    assert url[i..] == "users/ME/contacts" + tail;
    ContactsPrefixAt(url, i, tail);
    UserTailLayout(url, i + 17, digits, id, rest);
    MatchUserAtBranches(url, i);
  }

  /** Both literals of the contacts form, and what follows them, when it is laid out at `i`. */
  lemma ContactsPrefixAt(url: string, i: nat, tail: string)
    requires i <= |url| && url[i..] == "users/ME/contacts" + tail
    ensures LiteralAt(url, i, "users") && LiteralAt(url, i + 5, "/ME/contacts")
    ensures i + 17 <= |url| && url[i + 17..] == tail
  {
    var t := url[i..];
    assert url[i..i + 5] == t[..5] == "users";
    assert url[i + 5..i + 17] == t[5..17] == "/ME/contacts";
    assert url[i + 17..] == t[17..];
  }

  /** The user pattern matches at `i` when `users/digits:id` is laid out there. */
  lemma MatchUserAtDirect(url: string, i: nat, digits: string, id: string, rest: string)
    requires |digits| > 0 && AllIn(digits, Digits) && EndsIdRun(id, rest)
    requires i <= |url| && url[i..] == "users/" + (digits + ":" + id + rest)
    ensures MatchUserAt(url, i) == Some(id)
  {
    var t := url[i..];
    assert LiteralAt(url, i, "users") by {
      assert t[..5] == "users";
      assert url[i..i + 5] == t[..5];
    }
    assert !LiteralAt(url, i + 5, "/ME/contacts") by {
      assert url[i + 6] == t[6] == digits[0];
      if i + 17 <= |url| { assert url[i + 5..i + 17][1] == url[i + 6]; }
    }
    assert UserTail(url, i + 5) == Some(id) by {
      assert url[i + 5..] == "/" + (digits + ":" + id + rest) by { assert url[i + 5..] == t[5..]; }
      UserTailLayout(url, i + 5, digits, id, rest);
    }
    MatchUserAtBranches(url, i);
  }

  /**
   * Building a user URL from its parts and extracting from it gives the identifier back,
   * for both the `users/` and `users/ME/contacts/` forms.
   */
  lemma UserToIdRoundTrip(url: string, pre: string, viaContacts: bool, digits: string, id: string, rest: string)
    requires url == pre + (if viaContacts then "users/ME/contacts/" else "users/") + digits + ":" + id + rest
    requires |digits| > 0 && AllIn(digits, Digits)
    requires EndsIdRun(id, rest)
    requires forall j :: 0 <= j < |pre| ==> MatchUserAt(url, j).None?
    ensures UserToId(url) == Some(id)
  {
    var path := if viaContacts then "users/ME/contacts/" else "users/";
    assert url == pre + (path + (digits + ":" + id + rest));
    assert url[|pre|..] == path + (digits + ":" + id + rest);
    if viaContacts {
      MatchUserAtContacts(url, |pre|, digits, id, rest);
    } else {
      MatchUserAtDirect(url, |pre|, digits, id, rest);
    }
    assert forall k :: 0 <= k < |pre| ==> UserMatch(url, k).None? by {
      assert forall k :: 0 <= k < |pre| ==> UserMatch(url, k) == MatchUserAt(url, k);
    }
    SearchFrom(url, 0, |pre|, UserMatch);
  }

  /** The round trip for the common case of a prefix without the letter `u`. */
  lemma UserToIdAfterPlainPrefix(url: string, pre: string, viaContacts: bool, digits: string, id: string, rest: string)
    requires url == pre + (if viaContacts then "users/ME/contacts/" else "users/") + digits + ":" + id + rest
    requires 'u' !in pre && |digits| > 0 && AllIn(digits, Digits) && EndsIdRun(id, rest)
    ensures UserToId(url) == Some(id)
  {
    assert url[..|pre|] == pre;
    NoUserMatchIn(url, pre);
    UserToIdRoundTrip(url, pre, viaContacts, digits, id, rest);
  }

  // ---------------------------------------------------------------------------
  // chatToId: conversations/([0-9]+:[A-Za-z0-9\.,:_\-]+(@thread\.skype)?), group 1

  const ThreadSuffix: string := "@thread.skype"

  /** `s` is `<digits>:<id characters>` with both parts non-empty. */
  predicate IsPrefixedId(s: string) {
    var d := RunEnd(s, 0, Digits);
    0 < d < |s| - 1 && s[d] == ':' && AllIn(s[d + 1..], IdChars)
  }

  /** Digits, a colon and identifier characters make a prefixed identifier. */
  lemma IsPrefixedIdLayout(digits: string, id: string)
    requires |digits| > 0 && AllIn(digits, Digits) && |id| > 0 && AllIn(id, IdChars)
    ensures IsPrefixedId(digits + ":" + id)
  {
    var s := digits + ":" + id;
    assert forall m :: 0 <= m < |digits| ==> s[m] == digits[m];
    RunEndIs(s, 0, |digits|, Digits);
    assert s[|digits| + 1..] == id;
  }

  /** A prefixed identifier, optionally followed by the thread suffix. */
  predicate IsChatId(s: string) {
    IsPrefixedId(s) ||
    (|s| > |ThreadSuffix| && s[|s| - |ThreadSuffix|..] == ThreadSuffix &&
     IsPrefixedId(s[..|s| - |ThreadSuffix|]))
  }

  /** What `PrefixedIdAt` matched is a prefixed identifier. */
  lemma PrefixedIdAtIsPrefixedId(s: string, i: nat)
    requires i <= |s| && PrefixedIdAt(s, i).Some?
    ensures IsPrefixedId(s[i..PrefixedIdAt(s, i).value.1])
  {
    var (d, e) := PrefixedIdAt(s, i).value;
    assert s[i..e] == s[i..d] + ":" + s[d + 1..e];
    IsPrefixedIdLayout(s[i..d], s[d + 1..e]);
  }

  /** A prefixed identifier followed by the thread suffix is a conversation identifier. */
  lemma SuffixedIsChatId(core: string)
    requires IsPrefixedId(core)
    ensures IsChatId(core + ThreadSuffix)
  {
    var v := core + ThreadSuffix;
    assert v[..|v| - |ThreadSuffix|] == core;
  }

  /**
   * The capture group of the conversation pattern at `j`: `[0-9]+:[A-Za-z0-9\.,:_\-]+`
   * followed by `@thread.skype` when present, the optional group being greedy.
   */
  function ChatIdAt(url: string, j: nat): (r: Option<string>)
    requires j <= |url|
    ensures r.Some? ==> j + |r.value| <= |url| && url[j..j + |r.value|] == r.value
    ensures r.Some? ==> IsChatId(r.value)
  {
    var m := PrefixedIdAt(url, j);
    if m.None? then None
    else
      var e := m.value.1;
      PrefixedIdAtIsPrefixedId(url, j);
      var suffixed := LiteralAt(url, e, ThreadSuffix);
      CaptureIsChatId(url, j, e, suffixed);
      Some(if suffixed then url[j..e + |ThreadSuffix|] else url[j..e])
  }

  /** The run `url[j..e]`, with the suffix when it follows, is a conversation identifier found at `j`. */
  lemma CaptureIsChatId(url: string, j: nat, e: nat, suffixed: bool)
    requires j <= e <= |url| && IsPrefixedId(url[j..e])
    requires suffixed ==> LiteralAt(url, e, ThreadSuffix)
    ensures var v := if suffixed then url[j..e + |ThreadSuffix|] else url[j..e];
      j + |v| <= |url| && url[j..j + |v|] == v && IsChatId(v)
  {
    if suffixed {
      assert url[j..e + |ThreadSuffix|] == url[j..e] + ThreadSuffix;
      SuffixedIsChatId(url[j..e]);
    }
  }

  /**
   * The group matches exactly when an identifier run starts at `j`; the capture is the
   * maximal run, with the thread suffix exactly when it follows.
   */
  lemma ChatIdAtRuns(url: string, j: nat)
    requires j <= |url|
    ensures ChatIdAt(url, j).Some? <==> exists d: nat, e: nat :: IdRunsAt(url, j, d, e)
    ensures forall d: nat, e: nat :: IdRunsAt(url, j, d, e) ==>
      ChatIdAt(url, j) == Some(url[j..e] + (if LiteralAt(url, e, ThreadSuffix) then ThreadSuffix else ""))
  {
    forall d: nat, e: nat | IdRunsAt(url, j, d, e)
      ensures ChatIdAt(url, j) == Some(url[j..e] + (if LiteralAt(url, e, ThreadSuffix) then ThreadSuffix else ""))
    {
      ChatIdAtRun(url, j, d, e);
    }
    var m := PrefixedIdAt(url, j);
    if m.Some? {
      assert IdRunsAt(url, j, m.value.0, m.value.1);
    }
  }

  /** The capture for the identifier run from `j` to `e`. */
  lemma ChatIdAtRun(url: string, j: nat, d: nat, e: nat)
    requires IdRunsAt(url, j, d, e)
    ensures ChatIdAt(url, j) == Some(url[j..e] + (if LiteralAt(url, e, ThreadSuffix) then ThreadSuffix else ""))
  {
    assert PrefixedIdAt(url, j) == Some((d, e)) by {
      PrefixedIdAtFinds(url, j);
    }
    ChatIdAtEnd(url, j, e);
  }

  /** The capture for the identifier that `PrefixedIdAt` ends at `e`, with the suffix when it follows. */
  lemma ChatIdAtEnd(url: string, j: nat, e: nat)
    requires j <= |url| && PrefixedIdAt(url, j).Some? && PrefixedIdAt(url, j).value.1 == e
    ensures ChatIdAt(url, j) == Some(url[j..e] + (if LiteralAt(url, e, ThreadSuffix) then ThreadSuffix else ""))
  {
    if LiteralAt(url, e, ThreadSuffix) {
      ChatIdAtSuffixed(url, j, e);
      assert url[j..e + |ThreadSuffix|] == url[j..e] + ThreadSuffix;
    } else {
      ChatIdAtUnsuffixed(url, j, e);
      assert url[j..e] + "" == url[j..e];
    }
  }

  /** `conversations/` at `i`, then an identifier run from `i + 14` as `IdRunsAt` describes. */
  predicate ConversationRunsAt(s: string, i: nat, d: nat, e: nat) {
    LiteralAt(s, i, "conversations/") && IdRunsAt(s, i + 14, d, e)
  }

  /** The conversation pattern anchored at `i`. */
  function MatchChatAt(url: string, i: nat): (r: Option<string>)
    requires i <= |url|
    ensures r.Some? ==> LiteralAt(url, i, "conversations/")
    ensures r.Some? ==> i + 14 + |r.value| <= |url| && url[i + 14..i + 14 + |r.value|] == r.value
  {
    if !LiteralAt(url, i, "conversations/") then None
    else ChatIdAt(url, i + 14)
  }

  /**
   * The pattern matches at `i` exactly when `conversations/` and an identifier run
   * follow; the capture is the text right after `conversations/`.
   */
  lemma MatchChatAtRuns(url: string, i: nat)
    requires i <= |url|
    ensures MatchChatAt(url, i).Some? <==> exists d: nat, e: nat :: ConversationRunsAt(url, i, d, e)
    ensures forall d: nat, e: nat :: ConversationRunsAt(url, i, d, e) ==>
      MatchChatAt(url, i) == Some(url[i + 14..e] + (if LiteralAt(url, e, ThreadSuffix) then ThreadSuffix else ""))
  {
    if LiteralAt(url, i, "conversations/") {
      ChatIdAtRuns(url, i + 14);
      PrefixedIdAtFinds(url, i + 14);
      var m := PrefixedIdAt(url, i + 14);
      if m.Some? {
        assert ConversationRunsAt(url, i, m.value.0, m.value.1);
      }
    }
  }

  /**
   * The conversation identifier in a `conversations/<n>:<id>` URL, type prefix and any
   * `@thread.skype` suffix included; `None` when no part of the URL matches.
   */
  function ChatToId(url: string): Option<string> {
    Search(url, 0, ChatMatch)
  }

  /** The conversation pattern at any position; nothing matches past the end of the URL. */
  function ChatMatch(url: string, i: nat): Option<string> {
    if i <= |url| then MatchChatAt(url, i) else None
  }

  /**
   * Extraction gives `None` exactly when the pattern matches nowhere in the URL, and
   * otherwise the capture of the match at the leftmost matching position.
   */
  lemma ChatToIdSpec(url: string)
    ensures ChatToId(url).None? <==> forall j :: 0 <= j <= |url| ==> MatchChatAt(url, j).None?
    ensures ChatToId(url).Some? ==>
      exists j :: 0 <= j <= |url| && MatchChatAt(url, j) == ChatToId(url) &&
        forall k :: 0 <= k < j ==> MatchChatAt(url, k).None?
    ensures ChatToId(url).Some? ==> IsChatId(ChatToId(url).value)
  {
    var r := ChatToId(url);
    assert r.None? <==> forall j :: 0 <= j <= |url| ==> MatchChatAt(url, j).None? by {
      SearchNone(url, 0, ChatMatch);
      assert forall j :: 0 <= j <= |url| ==> ChatMatch(url, j) == MatchChatAt(url, j);
    }
    if r.Some? {
      SearchFirst(url, 0, ChatMatch);
      var j :| 0 <= j <= |url| && ChatMatch(url, j) == r && forall k :: 0 <= k < j ==> ChatMatch(url, k).None?;
      assert MatchChatAt(url, j) == r == ChatIdAt(url, j + 14);
      assert forall k :: 0 <= k < j ==> MatchChatAt(url, k).None? by {
        assert forall k :: 0 <= k < j ==> ChatMatch(url, k) == MatchChatAt(url, k);
      }
    }
  }

  /** No match of the conversation pattern starts where `conversations/` does not. */
  lemma NoChatMatchWithout(url: string, n: nat)
    requires n <= |url| + 1
    requires forall j :: 0 <= j < n ==> !LiteralAt(url, j, "conversations/")
    ensures forall j :: 0 <= j < n && j <= |url| ==> MatchChatAt(url, j).None?
  {
  }

  /** A URL with no `conversations/` segment anywhere yields no conversation identifier. */
  lemma ChatToIdWithoutConversations(url: string)
    requires forall j :: 0 <= j <= |url| ==> !LiteralAt(url, j, "conversations/")
    ensures ChatToId(url) == None
  {
    NoChatMatchWithout(url, |url| + 1);
    ChatToIdSpec(url);
  }

  /** A match of the conversation pattern begins with `c`, so no match starts inside a prefix without one. */
  lemma NoChatMatchIn(url: string, pre: string)
    requires |pre| <= |url| && url[..|pre|] == pre && 'c' !in pre
    ensures forall j :: 0 <= j < |pre| ==> MatchChatAt(url, j).None?
  {
    forall j | 0 <= j < |pre|
      ensures MatchChatAt(url, j).None?
    {
      assert url[j] == pre[j];
      if j + 14 <= |url| {
        assert url[j..j + 14][0] == url[j];
      }
    }
  }

  /** `digits:id@thread.skype` laid out at `j` is captured whole. */
  lemma ChatIdAtThread(url: string, j: nat, digits: string, id: string, rest: string)
    requires |digits| > 0 && AllIn(digits, Digits) && |id| > 0 && AllIn(id, IdChars)
    requires j <= |url| && url[j..] == digits + ":" + id + (ThreadSuffix + rest)
    ensures ChatIdAt(url, j) == Some(digits + ":" + id + ThreadSuffix)
  {
    var tail := ThreadSuffix + rest;
    var e := j + |digits| + 1 + |id|;
    assert PrefixedIdAt(url, j) == Some((j + |digits|, e)) by {
      assert tail[0] == '@';
      PrefixedIdAtLayout(url, j, digits, id, tail);
    }
    assert LiteralAt(url, e, ThreadSuffix) by {
      SuffixAfter(url, j, digits + ":" + id, tail);
      LiteralAtPrefix(url, e, ThreadSuffix, rest);
    }
    assert url[j..e] == digits + ":" + id by {
      IdSlice(url, j, digits, id, tail);
    }
    ChatIdAtSuffixed(url, j, e);
    assert url[j..e + |ThreadSuffix|] == url[j..e] + url[e..e + |ThreadSuffix|];
  }

  /** `ChatIdAt` keeps the suffix when it follows the identifier run that `PrefixedIdAt` finds. */
  lemma ChatIdAtSuffixed(url: string, j: nat, e: nat)
    requires j <= |url| && PrefixedIdAt(url, j).Some? && PrefixedIdAt(url, j).value.1 == e
    requires LiteralAt(url, e, ThreadSuffix)
    ensures ChatIdAt(url, j) == Some(url[j..e + |ThreadSuffix|])
  {
  }

  /** `digits:id` not followed by the suffix is captured without one. */
  lemma ChatIdAtPlain(url: string, j: nat, digits: string, id: string, rest: string)
    requires |digits| > 0 && AllIn(digits, Digits) && EndsIdRun(id, rest) && !LiteralAt(rest, 0, ThreadSuffix)
    requires j <= |url| && url[j..] == digits + ":" + id + rest
    ensures ChatIdAt(url, j) == Some(digits + ":" + id)
  {
    var e := j + |digits| + 1 + |id|;
    assert PrefixedIdAt(url, j) == Some((j + |digits|, e)) by {
      PrefixedIdAtLayout(url, j, digits, id, rest);
    }
    assert !LiteralAt(url, e, ThreadSuffix) by {
      assert url[e..] == rest by { assert url[e..] == url[j..][e - j..]; }
      if e + 13 <= |url| {
        assert url[e..e + 13] == rest[0..13];
      }
    }
    ChatIdAtUnsuffixed(url, j, e);
    IdSlice(url, j, digits, id, rest);
  }

  /** `ChatIdAt` captures the run alone when the suffix does not follow it. */
  lemma ChatIdAtUnsuffixed(url: string, j: nat, e: nat)
    requires j <= |url| && PrefixedIdAt(url, j).Some? && PrefixedIdAt(url, j).value.1 == e
    requires !LiteralAt(url, e, ThreadSuffix)
    ensures ChatIdAt(url, j) == Some(url[j..e])
  {
  }

  /** The conversation pattern at `i` is the capture after `conversations/`. */
  lemma MatchChatAtLayout(url: string, i: nat, tail: string)
    requires i <= |url| && url[i..] == "conversations/" + tail
    ensures url[i + 14..] == tail
    ensures MatchChatAt(url, i) == ChatIdAt(url, i + 14)
  {
    var t := url[i..];
    assert url[i..i + 14] == t[..14];
    assert url[i + 14..] == t[14..];
  }

  /** When no match starts inside `pre`, the conversation pattern is first found right after it. */
  lemma ChatToIdAfter(url: string, pre: string, tail: string)
    requires url == pre + "conversations/" + tail
    requires forall j :: 0 <= j < |pre| ==> MatchChatAt(url, j).None?
    requires ChatIdAt(url, |pre| + 14).Some?
    ensures url[|pre| + 14..] == tail
    ensures ChatToId(url) == ChatIdAt(url, |pre| + 14)
  {
    var n := |pre|;
    assert url[n..] == "conversations/" + tail;
    MatchChatAtLayout(url, n, tail);
    assert ChatMatch(url, n) == ChatIdAt(url, n + 14);
    assert forall k :: 0 <= k < n ==> ChatMatch(url, k).None? by {
      assert forall k :: 0 <= k < n ==> ChatMatch(url, k) == MatchChatAt(url, k);
    }
    SearchFrom(url, 0, n, ChatMatch);
  }

  /** A group conversation URL built from its parts gives back the identifier with its thread suffix. */
  lemma ChatToIdThreadRoundTrip(url: string, pre: string, digits: string, id: string, rest: string)
    requires url == pre + "conversations/" + digits + ":" + id + ThreadSuffix + rest
    requires |digits| > 0 && AllIn(digits, Digits) && |id| > 0 && AllIn(id, IdChars)
    requires forall j :: 0 <= j < |pre| ==> MatchChatAt(url, j).None?
    ensures ChatToId(url) == Some(digits + ":" + id + ThreadSuffix)
  {
    var tail := digits + ":" + id + (ThreadSuffix + rest);
    assert url == pre + "conversations/" + tail;
    assert url[|pre| + 14..] == tail;
    ChatIdAtThread(url, |pre| + 14, digits, id, rest);
    ChatToIdAfter(url, pre, tail);
  }

  /** A conversation URL without the thread suffix gives back the prefixed identifier alone. */
  lemma ChatToIdPlainRoundTrip(url: string, pre: string, digits: string, id: string, rest: string)
    requires url == pre + "conversations/" + digits + ":" + id + rest
    requires |digits| > 0 && AllIn(digits, Digits)
    requires EndsIdRun(id, rest) && !LiteralAt(rest, 0, ThreadSuffix)
    requires forall j :: 0 <= j < |pre| ==> MatchChatAt(url, j).None?
    ensures ChatToId(url) == Some(digits + ":" + id)
  {
    var tail := digits + ":" + id + rest;
    assert url == pre + "conversations/" + tail;
    assert url[|pre| + 14..] == tail;
    ChatIdAtPlain(url, |pre| + 14, digits, id, rest);
    ChatToIdAfter(url, pre, tail);
  }

  /**
   * Building a conversation URL from its parts and extracting from it gives back the
   * prefixed identifier, with the thread suffix exactly when the URL carries it there.
   */
  lemma ChatToIdRoundTrip(url: string, pre: string, digits: string, id: string, thread: bool, rest: string)
    requires url == pre + "conversations/" + digits + ":" + id + (if thread then ThreadSuffix else "") + rest
    requires |digits| > 0 && AllIn(digits, Digits)
    requires thread ==> |id| > 0 && AllIn(id, IdChars)
    requires !thread ==> EndsIdRun(id, rest) && !LiteralAt(rest, 0, ThreadSuffix)
    requires forall j :: 0 <= j < |pre| ==> MatchChatAt(url, j).None?
    ensures ChatToId(url) == Some(digits + ":" + id + (if thread then ThreadSuffix else ""))
  {
    if thread {
      ChatToIdThreadRoundTrip(url, pre, digits, id, rest);
    } else {
      assert url == pre + "conversations/" + digits + ":" + id + rest;
      assert digits + ":" + id + "" == digits + ":" + id;
      ChatToIdPlainRoundTrip(url, pre, digits, id, rest);
    }
  }

  /** The round trip for the common case of a prefix without the letter `c`. */
  lemma ChatToIdAfterPlainPrefix(url: string, pre: string, digits: string, id: string, thread: bool, rest: string)
    requires url == pre + "conversations/" + digits + ":" + id + (if thread then ThreadSuffix else "") + rest
    requires 'c' !in pre && |digits| > 0 && AllIn(digits, Digits)
    requires thread ==> |id| > 0 && AllIn(id, IdChars)
    requires !thread ==> EndsIdRun(id, rest) && !LiteralAt(rest, 0, ThreadSuffix)
    ensures ChatToId(url) == Some(digits + ":" + id + (if thread then ThreadSuffix else ""))
  {
    assert url[..|pre|] == pre;
    NoChatMatchIn(url, pre);
    ChatToIdRoundTrip(url, pre, digits, id, thread, rest);
  }
}
