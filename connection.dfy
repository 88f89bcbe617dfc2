/**
 * Connection strings `[username:password@]address` (main.py lines 9-23).
 *
 * The source matches the string against the regular expression
 * `(?:^(?P<username>.+?):(?P<password>.+?)@)?(?P<address>.+?)$` anchored at
 * the start. This module states what that match yields: `.` is any character
 * but a newline, `$` is the end of the string or the position just before a
 * final newline, the optional group is tried first, and the lazy groups make
 * backtracking pick the lexicographically least (username end, password end)
 * for which the rest of the pattern succeeds.
 */
module ConnectionString {
  import opened Wrappers

  predicate NoNewline(s: string)
  {
    forall k :: 0 <= k < |s| ==> s[k] != '\n'
  }

  /** `(?P<address>.+?)$` started at position p can end at position k. */
  predicate AddressEndsAt(s: string, p: nat, k: nat)
  {
    p < k <= |s| && NoNewline(s[p..k]) && (k == |s| || (k == |s| - 1 && s[k] == '\n'))
  }

  /** Where the lazy address group ends: the least possible end, if any. */
  function AddressEnd(s: string, p: nat): (r: Option<nat>)
    ensures r.Some? ==> AddressEndsAt(s, p, r.value)
    ensures forall k :: AddressEndsAt(s, p, k) ==> r.Some? && r.value <= k
  {
    assert p <= |s| ==> s[p..|s|] == s[p..];
    assert p < |s| && s[|s| - 1] == '\n' ==> !NoNewline(s[p..]) by {
      if p < |s| && s[|s| - 1] == '\n' {
        assert s[p..][|s| - 1 - p] == '\n';
      }
    }
    if p < |s| && NoNewline(s[p..]) then Some(|s|)
    else if p + 1 < |s| && s[|s| - 1] == '\n' && NoNewline(s[p..|s| - 1]) then Some(|s| - 1)
    else None
  }

  /**
   * The optional group matches with username s[..i] and password s[i+1..j],
   * and the address group can then complete the match.
   */
  predicate CredentialSplit(s: string, i: nat, j: nat)
  {
    1 <= i && i + 1 < j < |s| && s[i] == ':' && s[j] == '@' &&
    NoNewline(s[..i]) && NoNewline(s[i + 1..j]) && AddressEnd(s, j + 1).Some?
  }

  /** (i, j) is tried by the backtracking matcher no later than (i', j'). */
  predicate TriedBefore(i: nat, j: nat, i': nat, j': nat)
  {
    i < i' || (i == i' && j <= j')
  }

  /** The least password end j' >= j completing a split with username end i. */
  function SearchPassword(s: string, i: nat, j: nat): (r: Option<nat>)
    ensures r.Some? ==> j <= r.value && CredentialSplit(s, i, r.value)
    ensures forall j' :: j <= j' && CredentialSplit(s, i, j') ==> r.Some? && r.value <= j'
    decreases |s| - j
  {
    if j >= |s| then None
    else if CredentialSplit(s, i, j) then Some(j)
    else SearchPassword(s, i, j + 1)
  }

  /** The first split, in the matcher's order, whose username end is at least i. */
  function SearchUsername(s: string, i: nat): (r: Option<(nat, nat)>)
    ensures r.Some? ==> i <= r.value.0 && CredentialSplit(s, r.value.0, r.value.1)
    ensures forall i', j' :: i <= i' && CredentialSplit(s, i', j') ==>
              r.Some? && TriedBefore(r.value.0, r.value.1, i', j')
    decreases |s| - i
  {
    if i >= |s| then None
    else match SearchPassword(s, i, i + 2)
      case Some(j) => Some((i, j))
      case None => SearchUsername(s, i + 1)
  }

  /** The named groups of a successful match; a group that did not take part is None. */
  datatype Match = Match(username: Option<string>, password: Option<string>, address: string)

  /** `re.match` of the connection-string pattern (line 10). */
  function RegexMatch(s: string): (r: Option<Match>)
    ensures r.Some? ==> (r.value.username.Some? <==> r.value.password.Some?)
    ensures r.Some? && r.value.username.Some? ==> r.value.username.value != [] && r.value.password.value != []
    ensures r.Some? ==> r.value.address != []
    ensures r.None? <==> SearchUsername(s, 1).None? && AddressEnd(s, 0).None?
  {
    match SearchUsername(s, 1)
    case Some((i, j)) => Some(Match(Some(s[..i]), Some(s[i + 1..j]), s[j + 1..AddressEnd(s, j + 1).value]))
    case None =>
      match AddressEnd(s, 0)
      case Some(k) => Some(Match(None, None, s[..k]))
      case None => None
  }

  datatype Credentials = Credentials(username: string, password: string)

  /** A registry address with the credentials to authenticate with, if any. */
  datatype Endpoint = Endpoint(address: string, credentials: Option<Credentials>)

  /** Python truthiness of a match group: present and not the empty string. */
  predicate Truthy(group: Option<string>)
  {
    group.Some? && group.value != []
  }

  function InvalidMessage(s: string): string
  {
    "\"" + s + "\" is not a valid connection string"
  }

  /**
   * `address_with_credentials` (lines 9-23): the endpoint a connection string
   * names, or the usage error. Only a failed match is an error: the branch for
   * a username without a password (or the reverse) cannot be taken.
   */
  function AddressWithCredentials(s: string): (r: Result<Endpoint, string>)
    ensures r.Failure? <==> RegexMatch(s).None?
    ensures r.Failure? ==> r.error == InvalidMessage(s)
    ensures r.Success? ==> r.value.address != []
  {
    match RegexMatch(s)
    case None => Failure(InvalidMessage(s))
    case Some(m) =>
      if Truthy(m.username) && Truthy(m.password) then
        Success(Endpoint(m.address, Some(Credentials(m.username.value, m.password.value))))
      else if Truthy(m.username) || Truthy(m.password) then
        Failure(InvalidMessage(s))
      else
        Success(Endpoint(m.address, None))
  }

  /** The connection string that names an endpoint. */
  function Render(e: Endpoint): string
  {
    match e.credentials
    case Some(c) => c.username + ":" + c.password + "@" + e.address
    case None => e.address
  }

  /** Endpoints whose rendering parses back to them. */
  predicate WellFormed(e: Endpoint)
  {
    e.address != [] && NoNewline(e.address) &&
    match e.credentials
    case Some(c) =>
      c.username != [] && ':' !in c.username && NoNewline(c.username) &&
      c.password != [] && '@' !in c.password && NoNewline(c.password)
    case None => '@' !in e.address
  }

  /** For a string without newlines, the parse fails only on the empty string. */
  lemma NewlineFreeFailsOnlyWhenEmpty(s: string)
    requires NoNewline(s)
    ensures AddressWithCredentials(s).Failure? <==> s == []
  {
    if s != [] {
      assert AddressEndsAt(s, 0, |s|) by { assert s[0..|s|] == s; }
    }
  }

  /** A split tried before every other split is the one the matcher takes. */
  lemma FirstSplitTaken(s: string, i: nat, j: nat)
    requires CredentialSplit(s, i, j)
    requires forall i': nat, j': nat :: CredentialSplit(s, i', j') ==> TriedBefore(i, j, i', j')
    ensures SearchUsername(s, 1) == Some((i, j))
  {
    var r := SearchUsername(s, 1);
    assert r.Some? && TriedBefore(r.value.0, r.value.1, i, j);
    assert CredentialSplit(s, r.value.0, r.value.1);
  }

  /** In `u:p@a`, the ':' after u and the '@' after p form the first split. */
  lemma CredentialsSplit(u: string, p: string, a: string)
    requires u != [] && ':' !in u && NoNewline(u)
    requires p != [] && '@' !in p && NoNewline(p)
    requires a != [] && NoNewline(a)
    ensures var s := u + ":" + p + "@" + a;
            var i, j := |u|, |u| + 1 + |p|;
            && s[..i] == u && s[i + 1..j] == p && s[j + 1..|s|] == a
            && AddressEnd(s, j + 1) == Some(|s|)
            && CredentialSplit(s, i, j)
            && forall i': nat, j': nat :: CredentialSplit(s, i', j') ==> TriedBefore(i, j, i', j')
  {
    var s := u + ":" + p + "@" + a;
    var i, j := |u|, |u| + 1 + |p|;
    assert s[..i] == u && s[i + 1..j] == p && s[j + 1..] == a && s[j + 1..|s|] == a;
    assert s[i] == ':' && s[j] == '@';
    assert AddressEndsAt(s, j + 1, |s|);
    assert forall i': nat, j': nat :: CredentialSplit(s, i', j') ==> TriedBefore(i, j, i', j');
  }

  /** A newline-free `u:p@a` yields credentials (u, p) and address a. */
  lemma ParsesCredentials(u: string, p: string, a: string)
    requires u != [] && ':' !in u && NoNewline(u)
    requires p != [] && '@' !in p && NoNewline(p)
    requires a != [] && NoNewline(a)
    ensures AddressWithCredentials(u + ":" + p + "@" + a) == Success(Endpoint(a, Some(Credentials(u, p))))
  {
    var s := u + ":" + p + "@" + a;
    var i, j := |u|, |u| + 1 + |p|;
    CredentialsSplit(u, p, a);
    FirstSplitTaken(s, i, j);
    assert RegexMatch(s) == Some(Match(Some(u), Some(p), a));
  }

  /** A string without '@' (and without newlines) is a bare address. */
  lemma ParsesBareAddress(s: string)
    requires s != [] && '@' !in s && NoNewline(s)
    ensures AddressWithCredentials(s) == Success(Endpoint(s, None))
  {
    forall i': nat, j': nat ensures !CredentialSplit(s, i', j') {
      if 0 <= j' < |s| {
        assert s[j'] in s;
      }
    }
    assert AddressEndsAt(s, 0, |s|) by { assert s[0..|s|] == s; }
    assert s[..|s|] == s;
  }

  /**
   * A string with no ':' after its first character cannot carry credentials:
   * it is a bare address. So `user@host` and `:secret@host`, a username
   * without a password and a password without a username, are taken as
   * addresses rather than rejected by the check at lines 16-17.
   */
  lemma OneSidedCredentialsAreAddress(s: string)
    requires s != [] && NoNewline(s)
    requires forall k :: 1 <= k < |s| ==> s[k] != ':'
    ensures AddressWithCredentials(s) == Success(Endpoint(s, None))
  {
    assert AddressEndsAt(s, 0, |s|) by { assert s[0..|s|] == s; }
    assert s[..|s|] == s;
  }

  /** A successful parse gives back the string, up to one final newline. */
  lemma ParseRendersBack(s: string)
    requires AddressWithCredentials(s).Success?
    ensures var e := AddressWithCredentials(s).value;
            s == Render(e) || s == Render(e) + "\n"
    ensures NoNewline(s) ==> s == Render(AddressWithCredentials(s).value)
  {
    var e := AddressWithCredentials(s).value;
    match SearchUsername(s, 1)
    case Some((i, j)) =>
      var k := AddressEnd(s, j + 1).value;
      assert s[..i] + ":" + s[i + 1..j] + "@" + s[j + 1..k] == s[..k];
      if k < |s| {
        assert s == s[..k] + "\n";
        assert !NoNewline(s) by { assert s[k] == '\n'; }
      } else {
        assert s[..k] == s;
      }
    case None =>
      var k := AddressEnd(s, 0).value;
      if k < |s| {
        assert s == s[..k] + "\n";
        assert !NoNewline(s) by { assert s[k] == '\n'; }
      } else {
        assert s[..k] == s;
      }
  }

  /** Rendering a well-formed endpoint and parsing it gives the endpoint back. */
  lemma RenderParsesBack(e: Endpoint)
    requires WellFormed(e)
    ensures AddressWithCredentials(Render(e)) == Success(e)
  {
    match e.credentials
    case Some(c) =>
      ParsesCredentials(c.username, c.password, e.address);
    case None =>
      ParsesBareAddress(e.address);
  }
}
