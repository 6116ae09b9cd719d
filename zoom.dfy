/**
 * The Zoom account-pool allocator: a session holds the roster of users of one
 * API key; asking it for the next available meeting probes every user's
 * account for live meetings, keeps the accounts that have none, picks one of
 * them with a uniform draw, and creates an instant meeting there, to which it
 * attaches the native-app join link.
 *
 * The answers of the Zoom API (the roster, each live-meeting listing, the
 * created meeting) and the draw of `Math.random` are inputs of the model.
 */
module Zoom {
  import opened Wrappers
  import opened JsString

  const API_BASE_URL := "https://api.zoom.us/v2"
  const APP_BASE_URL := "zoommtg://zoom.us"
  const USER_ID_PLACEHOLDER := "{userId}"
  const MEETING_ID_PLACEHOLDER := "{meetingId}"
  const MEETINGS_PREFIX := API_BASE_URL + "/users/"
  const MEETINGS_SUFFIX := "/meetings"
  const APP_JOIN_PREFIX := APP_BASE_URL + "/join?action=join&confno="

  /** The URL templates `URLs.meetings` and `URLs.appJoin`. */
  const MEETINGS_URL := MEETINGS_PREFIX + USER_ID_PLACEHOLDER + MEETINGS_SUFFIX
  const APP_JOIN_URL := APP_JOIN_PREFIX + MEETING_ID_PLACEHOLDER

  /** Milliseconds added to the clock for the `exp` claim of every token. */
  const TOKEN_LIFETIME := 100000

  // ---------------------------------------------------------------- enums

  /** The account tiers of a Zoom user, numbered as the API numbers them. */
  datatype UserType = Basic | Pro | Corp {
    function Code(): int {
      match this
      case Basic => 1
      case Pro => 2
      case Corp => 3
    }
  }

  /** The reverse mapping a TypeScript numeric enum carries: code to member, if any. */
  function UserTypeOf(code: int): (t: Option<UserType>)
    ensures t.Some? ==> t.value.Code() == code
    ensures t.None? ==> forall u: UserType :: u.Code() != code
  {
    if code == 1 then Some(Basic)
    else if code == 2 then Some(Pro)
    else if code == 3 then Some(Corp)
    else None
  }

  lemma UserTypeRoundTrip(u: UserType)
    ensures UserTypeOf(u.Code()) == Some(u)
  {
  }

  /** The kinds of meeting, numbered as the API numbers them (there is no 4 to 7). */
  datatype MeetingType = Instant | Scheduled | FixedRecurring | FloatingRecurring {
    function Code(): int {
      match this
      case Instant => 1
      case Scheduled => 2
      case FixedRecurring => 3
      case FloatingRecurring => 8
    }
  }

  function MeetingTypeOf(code: int): (t: Option<MeetingType>)
    ensures t.Some? ==> t.value.Code() == code
    ensures t.None? ==> forall m: MeetingType :: m.Code() != code
  {
    if code == 1 then Some(Instant)
    else if code == 2 then Some(Scheduled)
    else if code == 3 then Some(FixedRecurring)
    else if code == 8 then Some(FloatingRecurring)
    else None
  }

  lemma MeetingTypeRoundTrip(m: MeetingType)
    ensures MeetingTypeOf(m.Code()) == Some(m)
  {
  }

  // ---------------------------------------------------------------- data

  datatype User = User(id: string, email: string, userType: UserType, timezone: string)

  /** A meeting as the API sends it, in a live-meeting listing or as the answer to a creation. */
  datatype MeetingData = MeetingData(
    id: string, topic: string, meetingType: MeetingType,
    agenda: string, startTime: string, joinUrl: string)

  /**
   * The meeting `createMeeting` hands back: the object parsed from the
   * answer, on which the native-app link is then set in place.
   */
  class Meeting {
    const id: string
    const topic: string
    const meetingType: MeetingType
    const agenda: string
    const startTime: string
    const joinUrl: string
    var appUrl: Option<string>

    constructor (body: MeetingData)
      ensures Body() == body && appUrl == None
    {
      id, topic, meetingType := body.id, body.topic, body.meetingType;
      agenda, startTime, joinUrl := body.agenda, body.startTime, body.joinUrl;
      appUrl := None;
    }

    /** The fields the API sent. */
    function Body(): MeetingData {
      MeetingData(id, topic, meetingType, agenda, startTime, joinUrl)
    }
  }

  /** Why an allocation, or the lookup of the roster, did not produce its result. */
  datatype Failure =
    | UsersLookupFailed(message: string)   // the string thrown when the roster answer is not 200
    | RequestRejected(reason: string)      // the roster request itself rejected
    | ProbeRejected(reason: string)        // one live-meeting listing rejected: `Promise.all` rejects
    | NoAccountAvailable                   // `availableSessions[0]` is undefined: a TypeError
    | CreateRejected(reason: string)       // the meeting creation rejected

  /** What a live-meeting listing request ended with. */
  datatype ProbeOutcome = Listed(meetings: seq<MeetingData>) | ProbeFailed(reason: string)

  /** What a meeting creation request ended with. */
  datatype CreateOutcome = Created(body: MeetingData) | CreateFailed(reason: string)

  /** What the roster request ended with; `inspected` is `util.inspect` of the answer's body. */
  datatype UsersOutcome =
    | UsersAnswer(status: int, users: seq<User>, inspected: string)
    | UsersFailed(reason: string)

  /** The requests sent to the Zoom API, by method and URL. */
  datatype Request = GetLiveMeetings(url: string) | PostMeeting(url: string)

  // ---------------------------------------------------------------- URLs and tokens

  /** `URLs.meetings.replace(/{userId}/, email)`: the meetings resource of one user. */
  function MeetingsUrl(email: string): (url: string)
    ensures url == MEETINGS_PREFIX + Expand(email, USER_ID_PLACEHOLDER, MEETINGS_PREFIX, MEETINGS_SUFFIX) + MEETINGS_SUFFIX
    ensures '$' !in email ==> url == MEETINGS_PREFIX + email + MEETINGS_SUFFIX
  {
    FillTemplate(MEETINGS_PREFIX, USER_ID_PLACEHOLDER, MEETINGS_SUFFIX, email);
    assert '$' !in email ==> Expand(email, USER_ID_PLACEHOLDER, MEETINGS_PREFIX, MEETINGS_SUFFIX) == email;
    ReplaceFirst(MEETINGS_URL, USER_ID_PLACEHOLDER, email)
  }

  /** `URLs.appJoin.replace(/{meetingId}/, id)`: the link that opens the meeting in the Zoom app. */
  function AppJoinUrl(meetingId: string): (url: string)
    ensures url == APP_JOIN_PREFIX + Expand(meetingId, MEETING_ID_PLACEHOLDER, APP_JOIN_PREFIX, "")
    ensures '$' !in meetingId ==> url == APP_JOIN_PREFIX + meetingId
  {
    FillAppJoin(meetingId);
    assert '$' !in meetingId ==> Expand(meetingId, MEETING_ID_PLACEHOLDER, APP_JOIN_PREFIX, "") == meetingId;
    ReplaceFirst(APP_JOIN_URL, MEETING_ID_PLACEHOLDER, meetingId)
  }

  /** The app-join template ends with its placeholder, so filling it appends the expanded id to the prefix. */
  lemma FillAppJoin(meetingId: string)
    ensures ReplaceFirst(APP_JOIN_URL, MEETING_ID_PLACEHOLDER, meetingId)
            == APP_JOIN_PREFIX + Expand(meetingId, MEETING_ID_PLACEHOLDER, APP_JOIN_PREFIX, "")
  {
    FillTemplate(APP_JOIN_PREFIX, MEETING_ID_PLACEHOLDER, "", meetingId);
    assert APP_JOIN_PREFIX + MEETING_ID_PLACEHOLDER + "" == APP_JOIN_URL;
    var e := Expand(meetingId, MEETING_ID_PLACEHOLDER, APP_JOIN_PREFIX, "");
    assert APP_JOIN_PREFIX + e + "" == APP_JOIN_PREFIX + e;
  }

  /** Different plain meeting ids give different app links, so the id can be read back from the link. */
  lemma AppJoinUrlInjective(a: string, b: string)
    requires '$' !in a && '$' !in b
    requires AppJoinUrl(a) == AppJoinUrl(b)
    ensures a == b
  {
    var p := APP_JOIN_PREFIX;
    assert a == (p + a)[|p|..];
    assert b == (p + b)[|p|..];
  }

  datatype TokenPayload = TokenPayload(iss: string, exp: int)

  /** A token signed with `jwt.sign`; the signature itself is not modelled, only what was signed and with which secret. */
  datatype Token = Signed(payload: TokenPayload, secret: string)

  /** `tokenFrom`, with the clock reading `(new Date()).getTime()` (milliseconds) passed in. */
  function TokenFrom(apiKey: string, apiSecret: string, nowMillis: int): (t: Token)
    ensures t.payload.iss == apiKey && t.secret == apiSecret
    ensures t.payload.exp - nowMillis == TOKEN_LIFETIME
  {
    Signed(TokenPayload(apiKey, nowMillis + TOKEN_LIFETIME), apiSecret)
  }

  /** A JSON Web Token is expired once the clock, in whole seconds, reaches its `exp` claim (RFC 7519, sections 2 and 4.1.4). */
  predicate ExpiredAt(p: TokenPayload, nowSeconds: int) {
    nowSeconds >= p.exp
  }

  /**
   * As written, `exp` is a millisecond reading: read in seconds, as the JWT
   * claim is, the token issued at any time after the epoch is still valid
   * at the second whose number equals the issuing millisecond, which is
   * about a thousand times as far from the epoch as the issuing moment.
   */
  lemma TokenFromOutlivesWindow(apiKey: string, apiSecret: string, nowMillis: nat)
    ensures !ExpiredAt(TokenFrom(apiKey, apiSecret, nowMillis).payload, nowMillis)
    ensures !ExpiredAt(TokenFrom(apiKey, apiSecret, nowMillis).payload, nowMillis / 1000 + TOKEN_LIFETIME / 1000)
  {
  }

  /** The token with the evidently intended lifetime: `exp` in seconds, 100 seconds after issue. */
  function TokenFromSeconds(apiKey: string, apiSecret: string, nowMillis: int): (t: Token)
    ensures t.payload.iss == apiKey && t.secret == apiSecret
    ensures forall s :: nowMillis / 1000 <= s ==> (ExpiredAt(t.payload, s) <==> s >= nowMillis / 1000 + TOKEN_LIFETIME / 1000)
  {
    Signed(TokenPayload(apiKey, nowMillis / 1000 + TOKEN_LIFETIME / 1000), apiSecret)
  }

  /** The corrected token is valid for exactly the 100 seconds (`TOKEN_LIFETIME / 1000`) after the second it is issued in. */
  lemma TokenFromSecondsWindow(apiKey: string, apiSecret: string, nowMillis: int, s: int)
    requires nowMillis / 1000 <= s
    ensures !ExpiredAt(TokenFromSeconds(apiKey, apiSecret, nowMillis).payload, s) <==> s < nowMillis / 1000 + TOKEN_LIFETIME / 1000
  {
  }

  // ---------------------------------------------------------------- accounts and sessions

  /** One Zoom account of the pool, addressed by its user's email and signed for with the pool's key. */
  datatype Account = Account(email: string, apiKey: string, apiSecret: string) {

    /** The listing of this account's live meetings, as `liveMeetings` requests it: a GET of the user's meetings. */
    function LiveMeetingsRequest(): (r: Request)
      ensures r.GetLiveMeetings?
      ensures '$' !in email ==> r.url == MEETINGS_PREFIX + email + MEETINGS_SUFFIX
    {
      GetLiveMeetings(MeetingsUrl(email))
    }

    /** The creation of an instant meeting on this account, as `createMeeting` requests it: a POST to the same resource. */
    function CreateMeetingRequest(): (r: Request)
      ensures r.PostMeeting?
      ensures r.url == LiveMeetingsRequest().url
      ensures '$' !in email ==> r.url == MEETINGS_PREFIX + email + MEETINGS_SUFFIX
    {
      PostMeeting(MeetingsUrl(email))
    }
  }

  /** An account is idle when its live-meeting listing came back empty. */
  predicate IsIdle(o: ProbeOutcome) {
    o.Listed? && |o.meetings| == 0
  }

  datatype Session = Session(apiKey: string, apiSecret: string, users: seq<User>) {

    /** `accountForEmail`: the account of one user, signed for with the session's own key and secret. */
    function AccountForEmail(email: string): (a: Account)
      ensures a.email == email && a.apiKey == apiKey && a.apiSecret == apiSecret
    {
      Account(email, apiKey, apiSecret)
    }

    /** One account per roster user, in roster order. */
    function Accounts(): (accounts: seq<Account>)
      ensures |accounts| == |users|
      ensures forall i :: 0 <= i < |users| ==> accounts[i] == AccountForEmail(users[i].email)
    {
      seq(|users|, i requires 0 <= i < |users| => AccountForEmail(users[i].email))
    }
  }

  /** `getSession`: the roster answer makes a session only when its status is 200. */
  function GetSession(apiKey: string, apiSecret: string, answer: UsersOutcome): (r: Result<Session, Failure>)
    ensures r.Ok? <==> answer.UsersAnswer? && answer.status == 200
    ensures r.Ok? ==> r.value.apiKey == apiKey && r.value.apiSecret == apiSecret && r.value.users == answer.users
    ensures answer.UsersAnswer? && answer.status != 200 ==>
              r == Err(UsersLookupFailed("Error looking up users: " + answer.inspected + "."))
    ensures answer.UsersFailed? ==> r == Err(RequestRejected(answer.reason))
  {
    match answer
    case UsersFailed(reason) => Err(RequestRejected(reason))
    case UsersAnswer(status, users, inspected) =>
      if status != 200 then Err(UsersLookupFailed("Error looking up users: " + inspected + "."))
      else Ok(Session(apiKey, apiSecret, users))
  }

  // ---------------------------------------------------------------- the allocation pipeline

  /**
   * The `Promise.all` over the live-meeting listings: every account paired
   * with whether it is idle, or the failure of a listing if any failed.
   * Which failure `Promise.all` reports is the first to settle; the model
   * reports the first in roster order.
   */
  function ProbeAll(accounts: seq<Account>, probe: Account -> ProbeOutcome): (r: Result<seq<(Account, bool)>, Failure>)
    ensures r.Ok? <==> forall i :: 0 <= i < |accounts| ==> probe(accounts[i]).Listed?
    ensures r.Ok? ==> |r.value| == |accounts|
    ensures r.Ok? ==> forall i :: 0 <= i < |accounts| ==> r.value[i] == (accounts[i], IsIdle(probe(accounts[i])))
    ensures r.Err? ==> r.error.ProbeRejected?
    ensures r.Err? ==> exists i :: 0 <= i < |accounts| && probe(accounts[i]) == ProbeFailed(r.error.reason)
  {
    if accounts == [] then Ok([])
    else
      match probe(accounts[0])
      case ProbeFailed(reason) => Err(ProbeRejected(reason))
      case Listed(meetings) =>
        match ProbeAll(accounts[1..], probe)
        case Err(e) => Err(e)
        case Ok(rest) => Ok([(accounts[0], |meetings| == 0)] + rest)
  }

  /** `accountMeetings.filter(available).map(account)`: the accounts flagged idle. */
  function Available(pairs: seq<(Account, bool)>): (r: seq<Account>)
    ensures |r| <= |pairs|
    ensures forall a :: a in r <==> (a, true) in pairs
  {
    if pairs == [] then []
    else (if pairs[0].1 then [pairs[0].0] else []) + Available(pairs[1..])
  }

  /** The filter keeps roster order: it distributes over concatenation. */
  lemma {:induction false} AvailableAppend(p: seq<(Account, bool)>, q: seq<(Account, bool)>)
    ensures Available(p + q) == Available(p) + Available(q)
    decreases |p|
  {
    if p != [] {
      AvailableAppend(p[1..], q);
      assert (p + q)[0] == p[0];
      assert (p + q)[1..] == p[1..] + q;
    } else {
      assert p + q == q;
    }
  }

  /** `Math.floor(draw * k)`, with `draw` what `Math.random()` returned. */
  function ChosenIndex(draw: real, k: nat): (i: int)
    requires 0.0 <= draw < 1.0
    ensures k == 0 ==> i == 0
    ensures k > 0 ==> 0 <= i < k
  {
    var x := draw * k as real;
    assert 0.0 <= x;
    assert k > 0 ==> x < k as real;
    x.Floor
  }

  /**
   * The draw picks index `j` of `k` exactly when it falls in `[j/k, (j+1)/k)`:
   * every idle account gets an interval of the same length, `1/k`.
   */
  lemma ChosenIndexInterval(draw: real, k: nat, j: int)
    requires 0.0 <= draw < 1.0
    requires 0 <= j < k
    ensures ChosenIndex(draw, k) == j <==> j as real / k as real <= draw < (j + 1) as real / k as real
  {
    var kr := k as real;
    FloorExactly(draw * kr, j);
    DivideAgainstScale(j as real, draw, kr);
    DivideAgainstScale((j + 1) as real, draw, kr);
  }

  /** The floor of `x` is `j` exactly when `x` lies in `[j, j + 1)`. */
  lemma FloorExactly(x: real, j: int)
    ensures x.Floor == j <==> j as real <= x < (j + 1) as real
  {
    var f := x.Floor;
    assert f as real <= x < f as real + 1.0;
    if j as real <= x < (j + 1) as real {
      assert f < j + 1 && j < f + 1;
    }
  }

  /** For a positive `k`, `n / k <= d` exactly when `n <= d * k`. */
  lemma DivideAgainstScale(n: real, d: real, k: real)
    requires k > 0.0
    ensures n / k <= d <==> n <= d * k
  {
    assert (n / k) * k == n;
    ScaleMonotone(n / k, d, k);
  }

  /** Scaling by a positive factor keeps the order of two reals, both ways. */
  lemma ScaleMonotone(a: real, b: real, k: real)
    requires k > 0.0
    ensures a <= b <==> a * k <= b * k
  {
    if a <= b {
      assert (b - a) * k >= 0.0;
    } else {
      assert (a - b) * k > 0.0;
    }
  }

  /**
   * What `nextAvailableMeeting` settles on before it creates the meeting:
   * the account at the drawn index of the idle accounts, or the failure.
   */
  function NextAvailableAccount(s: Session, probe: Account -> ProbeOutcome, draw: real): (r: Result<Account, Failure>)
    requires 0.0 <= draw < 1.0
    // the chosen account belongs to the roster, is signed for with the session's key, and is idle
    ensures r.Ok? ==> exists i :: 0 <= i < |s.users| && r.value == s.AccountForEmail(s.users[i].email)
    ensures r.Ok? ==> IsIdle(probe(r.value))
    // a rejected listing aborts the whole call, and only a rejected listing reports a rejection
    ensures (exists i :: 0 <= i < |s.users| && probe(s.AccountForEmail(s.users[i].email)).ProbeFailed?) ==>
              r.Err? && r.error.ProbeRejected?
    ensures r.Err? && r.error.ProbeRejected? ==>
              exists i :: 0 <= i < |s.users| && probe(s.AccountForEmail(s.users[i].email)) == ProbeFailed(r.error.reason)
    // with every listing in and some account idle, an account is chosen
    ensures (forall i :: 0 <= i < |s.users| ==> probe(s.AccountForEmail(s.users[i].email)).Listed?) &&
            (exists i :: 0 <= i < |s.users| && IsIdle(probe(s.AccountForEmail(s.users[i].email)))) ==>
              r.Ok?
    // with every listing in, the call fails exactly when no account is idle
    ensures (forall i :: 0 <= i < |s.users| ==> probe(s.AccountForEmail(s.users[i].email)).Listed?) ==>
              (r == Err(NoAccountAvailable) <==> forall i :: 0 <= i < |s.users| ==> !IsIdle(probe(s.AccountForEmail(s.users[i].email))))
    ensures r.Err? ==> r.error.ProbeRejected? || r.error == NoAccountAvailable
  {
    var accounts := s.Accounts();
    match ProbeAll(accounts, probe)
    case Err(e) => Err(e)
    case Ok(accountMeetings) =>
      var available := Available(accountMeetings);
      var index := ChosenIndex(draw, |available|);
      if index < |available| then
        assert available[index] in available;
        Ok(available[index])
      else
        assert available == [];
        Err(NoAccountAvailable)
  }

  /** The account picked is the one at the drawn index of the idle accounts, in roster order. */
  lemma NextAvailableAccountIsDrawn(s: Session, probe: Account -> ProbeOutcome, draw: real)
    requires 0.0 <= draw < 1.0
    requires NextAvailableAccount(s, probe, draw).Ok?
    ensures ProbeAll(s.Accounts(), probe).Ok?
    ensures var available := Available(ProbeAll(s.Accounts(), probe).value);
            NextAvailableAccount(s, probe, draw).value == available[ChosenIndex(draw, |available|)]
  {
  }

  /** An empty roster never yields an account. */
  lemma EmptyRosterFails(s: Session, probe: Account -> ProbeOutcome, draw: real)
    requires 0.0 <= draw < 1.0
    requires s.users == []
    ensures NextAvailableAccount(s, probe, draw) == Err(NoAccountAvailable)
  {
  }

  /**
   * Roster `[A busy, B idle, C idle]`: the draw picks B below one half and C
   * from one half on; A is never picked.
   */
  lemma BusyIdleIdle(s: Session, probe: Account -> ProbeOutcome, draw: real)
    requires 0.0 <= draw < 1.0
    requires |s.users| == 3
    requires var a := s.Accounts(); probe(a[0]).Listed? && |probe(a[0]).meetings| > 0 && IsIdle(probe(a[1])) && IsIdle(probe(a[2]))
    ensures NextAvailableAccount(s, probe, draw) == Ok(s.Accounts()[if draw < 0.5 then 1 else 2])
  {
    var a := s.Accounts();
    var pairs := ProbeAll(a, probe).value;
    assert pairs == [(a[0], false), (a[1], true), (a[2], true)];
    assert Available(pairs) == [a[1], a[2]] by {
      assert pairs[1..][1..] == [(a[2], true)];
      assert pairs[1..][1..][1..] == [];
    }
    ChosenIndexInterval(draw, 2, 0);
    ChosenIndexInterval(draw, 2, 1);
    assert ChosenIndex(draw, 2) == if draw < 0.5 then 0 else 1;
    NextAvailableAccountIsDrawn(s, probe, draw);
  }

  /**
   * `createMeeting`: posts the creation request; on an answer, sets the
   * native-app link of the returned meeting in place and hands it back.
   */
  method CreateMeeting(account: Account, answer: CreateOutcome) returns (result: Result<Meeting, Failure>, request: Request)
    ensures request == account.CreateMeetingRequest()
    ensures answer.CreateFailed? ==> result == Err(CreateRejected(answer.reason))
    ensures answer.Created? ==> result.Ok? && fresh(result.value)
    ensures answer.Created? ==> result.value.Body() == answer.body
    ensures answer.Created? ==> result.value.appUrl == Some(AppJoinUrl(answer.body.id))
  {
    request := account.CreateMeetingRequest();
    match answer
    case CreateFailed(reason) =>
      result := Err(CreateRejected(reason));
    case Created(body) =>
      var meeting := new Meeting(body);
      meeting.appUrl := Some(AppJoinUrl(meeting.id));
      result := Ok(meeting);
  }

  /**
   * `nextAvailableMeeting`: one live-meeting listing per roster user, in
   * roster order, all sent before any answer is looked at; then, only if an
   * account was settled on, one creation request on that account.
   */
  method NextAvailableMeeting(s: Session, probe: Account -> ProbeOutcome, draw: real, create: Account -> CreateOutcome)
    returns (result: Result<Meeting, Failure>, requests: seq<Request>)
    requires 0.0 <= draw < 1.0
    ensures |requests| >= |s.users|
    ensures forall i :: 0 <= i < |s.users| ==> requests[i] == s.AccountForEmail(s.users[i].email).LiveMeetingsRequest()
    ensures NextAvailableAccount(s, probe, draw).Err? ==>
              |requests| == |s.users| && result == Err(NextAvailableAccount(s, probe, draw).error)
    // with every listing in and some account idle, exactly one creation request is sent
    ensures (forall i :: 0 <= i < |s.users| ==> probe(s.AccountForEmail(s.users[i].email)).Listed?) &&
            (exists i :: 0 <= i < |s.users| && IsIdle(probe(s.AccountForEmail(s.users[i].email)))) ==>
              |requests| == |s.users| + 1 && requests[|s.users|].PostMeeting?
    ensures NextAvailableAccount(s, probe, draw).Ok? ==>
              var account := NextAvailableAccount(s, probe, draw).value;
              && requests == requests[..|s.users|] + [account.CreateMeetingRequest()]
              && (create(account).CreateFailed? ==> result == Err(CreateRejected(create(account).reason)))
              && (create(account).Created? ==>
                    && result.Ok? && fresh(result.value)
                    && result.value.Body() == create(account).body
                    && result.value.appUrl == Some(AppJoinUrl(create(account).body.id)))
  {
    var accounts := s.Accounts();
    requests := seq(|accounts|, i requires 0 <= i < |accounts| => accounts[i].LiveMeetingsRequest());
    var chosen := NextAvailableAccount(s, probe, draw);
    match chosen
    case Err(e) =>
      result := Err(e);
    case Ok(account) =>
      var request;
      result, request := CreateMeeting(account, create(account));
      requests := requests + [request];
  }
}
