/** The pure parts of `scripts/load-test.js`: reading the session token out
    of the `set-cookie` headers, the round-robin choice of test user, the
    success/failure split of the results, and the final verdict. */
module LoadTest {
  import opened Wrappers
  import opened Text
  import opened Seqs

  const TokenKey: string := "auth-token="

  /** The regular expression `/auth-token=([^;]+)/` matches at `p`:
      "auth-token=" starts there and is followed by a character other than
      ';'. The match is not anchored, so `p` may be anywhere. */
  predicate MatchAt(cookie: string, p: nat) {
    p + |TokenKey| < |cookie| && cookie[p..p + |TokenKey|] == TokenKey && cookie[p + |TokenKey|] != ';'
  }

  /** The leftmost match at or after `from`. */
  function FirstMatch(cookie: string, from: nat): (r: Option<nat>)
    ensures r.Some? ==> from <= r.value && MatchAt(cookie, r.value)
    ensures r.Some? ==> forall q :: from <= q < r.value ==> !MatchAt(cookie, q)
    ensures r.None? ==> forall q :: from <= q ==> !MatchAt(cookie, q)
    decreases |cookie| - from
  {
    if from + |TokenKey| >= |cookie| then None
    else if MatchAt(cookie, from) then Some(from)
    else FirstMatch(cookie, from + 1)
  }

  /** The end of the run of non-';' characters that starts at `i`: the
      greedy `[^;]+`. */
  function RunEnd(cookie: string, i: nat): (j: nat)
    requires i <= |cookie|
    ensures i <= j <= |cookie|
    ensures forall k :: i <= k < j ==> cookie[k] != ';'
    ensures j == |cookie| || cookie[j] == ';'
    decreases |cookie| - i
  {
    if i == |cookie| || cookie[i] == ';' then i else RunEnd(cookie, i + 1)
  }

  /** `auth-token=${match[1]}` for the match at `p`. */
  function TokenAt(cookie: string, p: nat): string
    requires MatchAt(cookie, p)
  {
    TokenKey + cookie[p + |TokenKey| .. RunEnd(cookie, p + |TokenKey|)]
  }

  /** `cookie.match(/auth-token=([^;]+)/)`, turned into a token: the one at
      the leftmost match, and none when nothing matches. */
  function TokenIn(cookie: string): (r: Option<string>)
    ensures r.None? <==> forall q: nat :: !MatchAt(cookie, q)
    ensures r.Some? ==> exists p: nat :: FirstMatch(cookie, 0) == Some(p) && r.value == TokenAt(cookie, p)
  {
    match FirstMatch(cookie, 0)
    case None => None
    case Some(p) => Some(TokenAt(cookie, p))
  }

  /** The token read at a match: "auth-token=" followed by the longest
      non-empty run of non-';' characters, exactly as it appears in the
      cookie from the match on. */
  lemma TokenAtShape(cookie: string, p: nat)
    requires MatchAt(cookie, p)
    ensures var v := TokenAt(cookie, p);
      && |v| > |TokenKey| && v[..|TokenKey|] == TokenKey
      && p + |v| <= |cookie| && cookie[p..p + |v|] == v
      && (forall k :: |TokenKey| <= k < |v| ==> v[k] != ';')
      && (p + |v| == |cookie| || cookie[p + |v|] == ';')
  {
    var e := RunEnd(cookie, p + |TokenKey|);
    var v := TokenAt(cookie, p);
    assert |v| == e - p;
    assert cookie[p..e] == cookie[p..p + |TokenKey|] + cookie[p + |TokenKey|..e];
    forall k | |TokenKey| <= k < |v| ensures v[k] != ';' {
      assert v[k] == cookie[p + k];
    }
  }

  /** `extractAuthToken(cookies)`: a missing cookie list gives null; otherwise
      the first cookie, in order, that the regular expression matches gives
      the token. */
  method ExtractAuthToken(cookies: Option<seq<string>>) returns (token: Option<string>)
    ensures token == FirstToken(cookies)
  {
    if cookies.None? {
      return None;
    }
    var list := cookies.value;
    var i := 0;
    while i < |list|
      invariant i <= |list|
      invariant forall k :: 0 <= k < i ==> TokenIn(list[k]).None?
    {
      var found := TokenIn(list[i]);
      if found.Some? {
        FirstTokenAt(list, i);
        return found;
      }
      i := i + 1;
    }
    FirstTokenAt(list, i);
    token := None;
  }

  /** The token of the first cookie that has one. */
  function FirstToken(cookies: Option<seq<string>>): (r: Option<string>)
    ensures cookies.None? ==> r.None?
    ensures cookies.Some? && r.None? ==>
      forall k :: 0 <= k < |cookies.value| ==> TokenIn(cookies.value[k]).None?
  {
    if cookies.None? then None else TokenOfList(cookies.value)
  }

  function TokenOfList(cookies: seq<string>): (r: Option<string>)
    ensures r.None? ==> forall k :: 0 <= k < |cookies| ==> TokenIn(cookies[k]).None?
  {
    if cookies == [] then None
    else if TokenIn(cookies[0]).Some? then TokenIn(cookies[0])
    else TokenOfList(cookies[1..])
  }

  /** With no token in the first `i` cookies, the list's token is the token
      of cookie `i`, or that of the rest. */
  lemma {:induction false} FirstTokenAt(cookies: seq<string>, i: nat)
    requires i <= |cookies|
    requires forall k :: 0 <= k < i ==> TokenIn(cookies[k]).None?
    ensures i == |cookies| ==> TokenOfList(cookies) == None
    ensures i < |cookies| && TokenIn(cookies[i]).Some? ==> TokenOfList(cookies) == TokenIn(cookies[i])
  {
    if i > 0 {
      FirstTokenAt(cookies[1..], i - 1);
    }
  }

  /** The first qualifying cookie wins, whatever later cookies hold. */
  lemma FirstCookieWins(first: string, rest: seq<string>)
    requires TokenIn(first).Some?
    ensures FirstToken(Some([first] + rest)) == TokenIn(first)
  {
  }

  /** The match is not anchored: "auth-token=" may follow other characters
      in the cookie, as in "xauth-token=v". */
  lemma UnanchoredMatch(prefix: string, value: string)
    requires 'a' !in prefix && value != [] && ';' !in value
    ensures TokenIn(prefix + TokenKey + value) == Some(TokenKey + value)
  {
    var c := prefix + TokenKey + value;
    var p := |prefix|;
    assert c == prefix + (TokenKey + value);
    KeyThenValue(prefix, value);
    forall q: nat | q < p ensures !MatchAt(c, q) {
      NoMatchInPrefix(prefix, TokenKey + value, q);
    }
    RunToEnd(c, p + |TokenKey|);
    assert FirstMatch(c, 0) == Some(p);
    assert TokenAt(c, p) == TokenKey + value;
  }

  /** The key and the value laid out after the prefix. */
  lemma KeyThenValue(prefix: string, value: string)
    requires value != [] && ';' !in value
    ensures var c := prefix + TokenKey + value;
      && MatchAt(c, |prefix|)
      && c[|prefix| + |TokenKey|..] == value
      && forall k :: |prefix| + |TokenKey| <= k < |c| ==> c[k] != ';'
  {
    var c := prefix + TokenKey + value;
    var p := |prefix|;
    assert c[p..p + |TokenKey|] == TokenKey;
    assert c[p + |TokenKey|..] == value;
    forall k | p + |TokenKey| <= k < |c| ensures c[k] != ';' {
      assert c[k] == value[k - p - |TokenKey|];
    }
  }

  /** A run with no ';' after it reaches the end of the cookie. */
  lemma {:induction false} RunToEnd(c: string, i: nat)
    requires i <= |c| && forall k :: i <= k < |c| ==> c[k] != ';'
    ensures RunEnd(c, i) == |c|
    decreases |c| - i
  {
    if i < |c| {
      RunToEnd(c, i + 1);
    }
  }

  /** Every match starts with 'a'. */
  lemma NoMatchInPrefix(prefix: string, rest: string, q: nat)
    requires 'a' !in prefix && q < |prefix|
    ensures !MatchAt(prefix + rest, q)
  {
    var c := prefix + rest;
    assert c[q] == prefix[q] != 'a' == TokenKey[0];
    assert q + |TokenKey| <= |c| ==> c[q..q + |TokenKey|][0] == c[q];
  }

  /** The ten seeded test accounts. */
  const TestUsers: seq<string> := ["testuser1", "testuser2", "testuser3", "testuser4", "testuser5",
                                   "testuser6", "testuser7", "testuser8", "testuser9", "testuser10"]

  /** Lines 124 and 214: virtual user i logs in as `TEST_USERS[i % 10]`. */
  function UserIndex(i: nat): (k: nat)
    ensures k < |TestUsers|
  {
    i % |TestUsers|
  }

  /** The assignment is round-robin: it repeats every ten users, and ten
      consecutive virtual users use ten different accounts. */
  lemma RoundRobin(i: nat, j: nat)
    ensures UserIndex(i + |TestUsers|) == UserIndex(i)
    ensures i < j < i + |TestUsers| ==> UserIndex(i) != UserIndex(j)
  {
  }

  /** One entry of `results`: whether the request succeeded, and who made
      it. */
  datatype Result = Result(success: bool, user: string, userIndex: nat)

  /** Lines 123-163: virtual users 1 to `CONCURRENT_USERS` log in, user i+1
      as `TEST_USERS[i % 10]`; a request succeeds when it answers 200. The
      HTTP exchange is the oracle `status`, which gives the status code of
      request i, or None when the request threw. A count below 1 runs no
      request. */
  function LoginResults(users: int, status: nat -> Option<int>): (r: seq<Result>)
    ensures |r| == if users > 0 then users else 0
    ensures forall i :: 0 <= i < |r| ==> r[i].userIndex == i + 1
  {
    var n := if users > 0 then users else 0;
    seq(n, i requires 0 <= i < n => Result(status(i) == Some(200), TestUsers[UserIndex(i)], i + 1))
  }

  predicate Succeeded(r: Result) {
    r.success
  }

  predicate Failed(r: Result) {
    !r.success
  }

  /** The `{ total, successful, failed }` a scenario returns. */
  datatype Summary = Summary(total: int, successful: nat, failed: nat)

  /** Lines 173-174 and 196-198 (and 292-293, 321-325): the results split
      into successes and failures; the total is what the scenario reports,
      `CONCURRENT_USERS` for the login test and the number of sessions for
      the creation test. */
  function Summarise(total: int, results: seq<Result>): (s: Summary)
    ensures s.total == total
    ensures s.successful + s.failed == |results|
    ensures s.failed == 0 <==> forall i :: 0 <= i < |results| ==> results[i].success
    ensures s.successful == |results| <==> s.failed == 0
  {
    FilterSplit(results, Succeeded, Failed);
    FilterCount(results, Failed);
    Summary(total, |Filter(results, Succeeded)|, |Filter(results, Failed)|)
  }

  /** The login test: no login failed exactly when every virtual user's
      request answered 200; each request logs in as the round-robin user;
      and for a positive user count the PASSED line (`successful ===
      total`) agrees with the failure count. */
  lemma LoginOutcome(users: int, status: nat -> Option<int>)
    ensures var r := LoginResults(users, status);
      forall i :: 0 <= i < |r| ==>
        r[i].user == TestUsers[UserIndex(i)] && (r[i].success <==> status(i) == Some(200))
    ensures var s := Summarise(users, LoginResults(users, status));
      && (s.failed == 0 <==> forall i: nat :: i < users ==> status(i) == Some(200))
      && (users >= 0 ==> (s.successful == s.total <==> s.failed == 0))
  {
    var r := LoginResults(users, status);
    if forall i :: 0 <= i < |r| ==> r[i].success {
      forall i: nat | i < users ensures status(i) == Some(200) {
        assert r[i].success;
      }
    }
  }

  /** With a user count below 0 no request runs: nothing failed, yet the
      login line reads FAILED, since 0 successes differ from the total. */
  lemma NegativeUsersDisagree(users: int, status: nat -> Option<int>)
    requires users < 0
    ensures var s := Summarise(users, LoginResults(users, status));
      s.failed == 0 && s.successful != s.total
  {
  }

  /** The successful and the failed results split the results: every
      result is in exactly one of the two lists, as often as it occurs. */
  lemma ResultsPartition(results: seq<Result>)
    ensures multiset(Filter(results, Succeeded)) + multiset(Filter(results, Failed)) == multiset(results)
    ensures forall i :: 0 <= i < |Filter(results, Succeeded)| ==> Filter(results, Succeeded)[i].success
    ensures forall i :: 0 <= i < |Filter(results, Failed)| ==> !Filter(results, Failed)[i].success
  {
    FilterSplit(results, Succeeded, Failed);
  }

  /** `SCENARIO === 'all' || SCENARIO === 'login'` and its `create` twin. */
  predicate RunsLogin(scenario: string) {
    scenario == "all" || scenario == "login"
  }

  predicate RunsCreate(scenario: string) {
    scenario == "all" || scenario == "create"
  }

  /** Lines 407-410: the health check passed and no scenario that ran had a
      failure. */
  predicate AllPassed(healthCheck: bool, login: Option<Summary>, create: Option<Summary>) {
    healthCheck && (login.None? || login.value.failed == 0) && (create.None? || create.value.failed == 0)
  }

  /** The run as a whole: the scenarios the `--scenario` argument selects
      are summarised, the others are null. The login total is the user
      count, the creation total the number of creation requests. */
  function Verdict(healthCheck: bool, scenario: string, users: int, loginResults: seq<Result>,
                   createResults: seq<Result>): bool
  {
    AllPassed(healthCheck,
              if RunsLogin(scenario) then Some(Summarise(users, loginResults)) else None,
              if RunsCreate(scenario) then Some(Summarise(|createResults|, createResults)) else None)
  }

  /** The run passes exactly when the health check passed and every
      request of every scenario that ran succeeded. */
  lemma VerdictMeans(healthCheck: bool, scenario: string, users: int, loginResults: seq<Result>,
                     createResults: seq<Result>)
    ensures Verdict(healthCheck, scenario, users, loginResults, createResults) <==>
      && healthCheck
      && (RunsLogin(scenario) ==> forall i :: 0 <= i < |loginResults| ==> loginResults[i].success)
      && (RunsCreate(scenario) ==> forall i :: 0 <= i < |createResults| ==> createResults[i].success)
  {
  }
}
