/**
 * The side-effect-free checks a client form runs before saving
 * (js/clients/clients-validation.js): field presence and shape, the screen
 * quota, the due date, the composite per-point check, the per-server
 * connection sums and the per-client (app, user) uniqueness check.
 *
 * "Today" and the due date are day numbers supplied by the caller.
 */
module ClientsValidation {
  import opened Common
  import opened ClientsModels

  const NameRequired := "Nome obrigatório"
  const NameInvalid := "Nome inválido"
  const PhoneRequired := "Telefone obrigatório (mínimo 1 dígito)"
  const EmailInvalid := "Email inválido"
  const ScreensInvalid := "Telas por servidor deve ser ≥ 1"
  const DueDateRequired := "Data de vencimento obrigatória"
  const DueDateNotAfterToday := "Data de vencimento deve ser maior que hoje"
  const DueDateInvalid := "Data de vencimento inválida"
  const ServerRequired := "Servidor obrigatório"
  const AppRequired := "App obrigatório"
  const UserRequired := "Usuário obrigatório"
  const PassRequired := "Senha obrigatória"
  const AppMetaMissing := "Meta do app não encontrada"
  const ExclusiveConns := "App exclusivo: conexões devem ser 1"
  const ConnsInvalid := "Conexões deve ser ≥ 1"

  function QuotaExceeded(screensPerServer: int): string {
    "Excede quota do servidor (máx " + IntToString(screensPerServer) + ")"
  }

  function DuplicateUser(user: string): string {
    "Usuário duplicado para app exclusivo: " + user
  }

  // ---------------------------------------------------------------------
  // Name, phone, email
  // ---------------------------------------------------------------------

  /** The digit characters of the input, in order; '' for a falsy input. */
  function NormalizePhone(str: Option<string>): (r: string)
    ensures forall i :: 0 <= i < |r| ==> IsDigit(r[i])
    ensures Present(str) ==> IsSubsequence(r, str.value)
    ensures forall c :: multiset(r)[c] == if Present(str) && IsDigit(c) then multiset(str.value)[c] else 0
  {
    if !Present(str) then ""
    else
      FilterSatisfies(str.value, IsDigit);
      FilterIsSubsequence(str.value, IsDigit);
      FilterCounts(str.value, IsDigit);
      Filter(str.value, IsDigit)
  }

  function ValidateName(name: Option<string>): (r: Check)
    ensures !Present(name) ==> r == Fail(NameRequired)
    ensures Present(name) && Blank(name.value) ==> r == Fail(NameInvalid)
    ensures r.Ok? <==> Present(name) && exists i :: 0 <= i < |name.value| && !IsWhitespace(name.value[i])
  {
    if !Present(name) then Fail(NameRequired)
    else
      TrimEmptyIffBlank(name.value);
      if |Trim(name.value)| == 0 then Fail(NameInvalid) else Ok
  }

  datatype PhoneCheck = PhoneOk(digits: string) | PhoneFail(msg: string, digits: string)

  function ValidatePhoneRaw(raw: Option<string>): (r: PhoneCheck)
    ensures r.PhoneOk? <==> NormalizePhone(raw) != ""
    ensures r.PhoneOk? <==> Present(raw) && exists i :: 0 <= i < |raw.value| && IsDigit(raw.value[i])
    ensures r.PhoneOk? ==> r.digits == NormalizePhone(raw)
    ensures r.PhoneFail? ==> r.msg == PhoneRequired && r.digits == ""
  {
    NormalizePhoneEmptyIff(raw);
    var digits := NormalizePhone(raw);
    if |digits| < 1 then PhoneFail(PhoneRequired, "") else PhoneOk(digits)
  }

  /** The normalised phone is empty exactly when the input holds no digit. */
  lemma NormalizePhoneEmptyIff(raw: Option<string>)
    ensures NormalizePhone(raw) == "" <==> !(Present(raw) && exists i :: 0 <= i < |raw.value| && IsDigit(raw.value[i]))
  {
    if Present(raw) {
      FilterEmptyIff(raw.value, IsDigit);
    }
  }

  /** A character of the class `[^\s@]`. */
  predicate EmailChar(c: char) {
    !IsWhitespace(c) && c != '@'
  }

  predicate EmailChars(s: string) {
    forall i :: 0 <= i < |s| ==> EmailChar(s[i])
  }

  /**
   * What `/^[^\s@]+@[^\s@]+\.[^\s@]+$/` accepts: a non-empty local part and
   * a rest, both free of whitespace and '@', around an '@'; the rest holds
   * a '.' with at least one character on each side.
   */
  ghost predicate EmailPattern(s: string) {
    exists at, dot ::
      0 < at && at + 1 < dot < |s| - 1 && s[at] == '@' && s[dot] == '.' &&
      EmailChars(s[..at]) && EmailChars(s[at + 1..])
  }

  /** A '.' with a character before and after it. */
  predicate HasInnerDot(s: string) {
    exists k | 0 < k < |s| - 1 :: s[k] == '.'
  }

  /** A matcher for the pattern: split at the first '@', then check both parts. */
  predicate SimpleEmail(s: string) {
    match IndexOf(s, '@')
    case None => false
    case Some(at) => 0 < at && EmailChars(s[..at]) && EmailChars(s[at + 1..]) && HasInnerDot(s[at + 1..])
  }

  lemma SimpleEmailMatchesPattern(s: string)
    ensures SimpleEmail(s) <==> EmailPattern(s)
  {
    if EmailPattern(s) {
      var at, dot :| 0 < at && at + 1 < dot < |s| - 1 && s[at] == '@' && s[dot] == '.' &&
                     EmailChars(s[..at]) && EmailChars(s[at + 1..]);
      // no '@' before `at`, so `at` is the first one
      assert forall j :: 0 <= j < at ==> s[j] == s[..at][j];
      assert IndexOf(s, '@') == Some(at);
      assert s[at + 1..][dot - at - 1] == '.';
    }
    if SimpleEmail(s) {
      var at := IndexOf(s, '@').value;
      var k :| 0 < k < |s[at + 1..]| - 1 && s[at + 1..][k] == '.';
      assert s[at + 1 + k] == '.';
    }
  }

  function ValidateEmail(email: Option<string>): (r: Check)
    ensures r.Ok? <==> !Present(email) || EmailPattern(email.value)
    ensures r.Fail? ==> r.msg == EmailInvalid
  {
    if !Present(email) then Ok
    else
      SimpleEmailMatchesPattern(email.value);
      if SimpleEmail(email.value) then Ok else Fail(EmailInvalid)
  }

  // ---------------------------------------------------------------------
  // Screens and due date
  // ---------------------------------------------------------------------

  /** Accepted exactly from 1 on; the accepted value is the floor of the input. */
  function ValidateScreens(n: real): (r: Checked<int>)
    ensures r.Accepted? <==> n >= 1.0
    ensures r.Accepted? ==> 1 <= r.value && r.value as real <= n < r.value as real + 1.0
    ensures r.Rejected? ==> r.msg == ScreensInvalid
  {
    if n < 1.0 then Rejected(ScreensInvalid) else Accepted(n.Floor)
  }

  /**
   * A due date must be given and fall strictly after today. A date the
   * `Date` constructor cannot read compares false against today and so
   * passes, as in the source.
   */
  function ValidateDueDate(due: Option<DateText>, today: int): (r: Check)
    ensures due.None? ==> r == Fail(DueDateRequired)
    ensures r.Ok? <==> due.Some? && (due.value.Unparseable? || due.value.day > today)
    ensures r.Fail? && due.Some? ==> r.msg == DueDateNotAfterToday
  {
    match due
    case None => Fail(DueDateRequired)
    case Some(Unparseable) => Ok
    case Some(Day(d)) => if d <= today then Fail(DueDateNotAfterToday) else Ok
  }

  /** The due-date check with an unreadable date rejected. */
  function ValidateDueDateStrict(due: Option<DateText>, today: int): (r: Check)
    ensures r.Ok? <==> due.Some? && due.value.Day? && due.value.day > today
    ensures due.None? ==> r == Fail(DueDateRequired)
    ensures due == Some(Unparseable) ==> r == Fail(DueDateInvalid)
  {
    match due
    case None => Fail(DueDateRequired)
    case Some(Unparseable) => Fail(DueDateInvalid)
    case Some(Day(d)) => if d <= today then Fail(DueDateNotAfterToday) else Ok
  }

  /** The two due-date checks differ on exactly the unreadable date. */
  lemma DueDateChecksAgreeOnReadableDates(due: Option<DateText>, today: int)
    ensures ValidateDueDate(due, today) != ValidateDueDateStrict(due, today) <==> due == Some(Unparseable)
  {
  }

  /** The source accepts a date string that does not parse. */
  lemma UnparseableDueDateAccepted(today: int)
    ensures ValidateDueDate(Some(Unparseable), today) == Ok
    ensures ValidateDueDateStrict(Some(Unparseable), today).Fail?
  {
  }

  // ---------------------------------------------------------------------
  // Points
  // ---------------------------------------------------------------------

  /** Only `multiplosAcessos === false` marks an exclusive app. */
  predicate IsExclusive(app: AppMeta) {
    app.multiplosAcessos == Some(false)
  }

  /** `Number(p.conns || 0)`: a missing count is 0. */
  function ConnsOrZero(p: Point): int {
    if p.conns.Some? then p.conns.value else 0
  }

  /** The connections of a list of points, left to right as `reduce` adds them. */
  function TotalConns(ps: seq<Point>): int {
    if ps == [] then 0 else TotalConns(ps[..|ps| - 1]) + ConnsOrZero(ps[|ps| - 1])
  }

  /** `user` is given and not only whitespace. */
  predicate UserGiven(user: Option<string>) {
    Present(user) && !Blank(user.value)
  }

  /** Everything the per-point check demands, stated at once. */
  ghost predicate PointAcceptable(point: Point, appMeta: Option<AppMeta>, screensPerServer: int, existing: seq<Point>) {
    && Present(point.serverId)
    && Present(point.appId)
    && UserGiven(point.user)
    && Present(point.pass)
    && appMeta.Some?
    && if IsExclusive(appMeta.value) then point.conns == Some(1)
       else point.conns.Some? && point.conns.value >= 1 &&
            TotalConns(existing) + point.conns.value <= screensPerServer
  }

  /**
   * The composite check of one point against its app and the points already
   * on its server. The checks run in a fixed order and the first that fails
   * decides the message.
   */
  function ValidatePointLocal(point: Point, appMeta: Option<AppMeta>, screensPerServer: int, existing: seq<Point>): (r: Check)
    ensures r.Ok? <==> PointAcceptable(point, appMeta, screensPerServer, existing)
    ensures !Present(point.serverId) ==> r == Fail(ServerRequired)
    ensures Present(point.serverId) && !Present(point.appId) ==> r == Fail(AppRequired)
    ensures Present(point.serverId) && Present(point.appId) && !UserGiven(point.user) ==> r == Fail(UserRequired)
    ensures Present(point.serverId) && Present(point.appId) && UserGiven(point.user) && !Present(point.pass) ==>
              r == Fail(PassRequired)
    ensures PointFieldsGiven(point) && appMeta.None? ==> r == Fail(AppMetaMissing)
    ensures r.Fail? && appMeta.Some? && IsExclusive(appMeta.value) && PointFieldsGiven(point) ==> r.msg == ExclusiveConns
    ensures r.Fail? && appMeta.Some? && !IsExclusive(appMeta.value) && PointFieldsGiven(point) ==>
              r.msg == (if point.conns.Some? && point.conns.value >= 1 then QuotaExceeded(screensPerServer) else ConnsInvalid)
  {
    if !Present(point.serverId) then Fail(ServerRequired)
    else if !Present(point.appId) then Fail(AppRequired)
    else if !Present(point.user) then Fail(UserRequired)
    else
      TrimEmptyIffBlank(point.user.value);
      if |Trim(point.user.value)| == 0 then Fail(UserRequired)
      else if !Present(point.pass) then Fail(PassRequired)
      else if appMeta.None? then Fail(AppMetaMissing)
      else if IsExclusive(appMeta.value) then
        if point.conns != Some(1) then Fail(ExclusiveConns) else Ok
      else if point.conns.None? || point.conns.value < 1 then Fail(ConnsInvalid)
      else if TotalConns(existing) + point.conns.value > screensPerServer then Fail(QuotaExceeded(screensPerServer))
      else Ok
  }

  /** The four presence checks that come before the app is consulted. */
  predicate PointFieldsGiven(point: Point) {
    Present(point.serverId) && Present(point.appId) && UserGiven(point.user) && Present(point.pass)
  }

  /** For an exclusive app neither the quota nor the existing points matter. */
  lemma ExclusiveIgnoresServerLoad(point: Point, app: AppMeta, q1: int, e1: seq<Point>, q2: int, e2: seq<Point>)
    requires IsExclusive(app)
    ensures ValidatePointLocal(point, Some(app), q1, e1) == ValidatePointLocal(point, Some(app), q2, e2)
    ensures ValidatePointLocal(point, Some(app), q1, e1).Ok? <==> PointFieldsGiven(point) && point.conns == Some(1)
  {
  }

  // ---------------------------------------------------------------------
  // Per-server sums
  // ---------------------------------------------------------------------

  /** The point is bound to server `s` (a falsy server id binds it to none). */
  predicate Bound(p: Point, s: string) {
    Present(p.serverId) && p.serverId.value == s
  }

  /** The connections of the points bound to `s`. */
  function SumFor(ps: seq<Point>, s: string): int {
    if ps == [] then 0
    else SumFor(ps[..|ps| - 1], s) + (if Bound(ps[|ps| - 1], s) then ConnsOrZero(ps[|ps| - 1]) else 0)
  }

  lemma {:induction false} SumForUnbound(ps: seq<Point>, s: string)
    requires forall i :: 0 <= i < |ps| ==> !Bound(ps[i], s)
    ensures SumFor(ps, s) == 0
  {
    if ps != [] {
      SumForUnbound(ps[..|ps| - 1], s);
    }
  }

  /** On points that share one server, the reduce-sum is that server's sum. */
  lemma {:induction false} TotalConnsOnOneServer(ps: seq<Point>, s: string)
    requires forall i :: 0 <= i < |ps| ==> Bound(ps[i], s)
    ensures TotalConns(ps) == SumFor(ps, s)
  {
    if ps != [] {
      TotalConnsOnOneServer(ps[..|ps| - 1], s);
    }
  }

  /**
   * A shared-app point that passes the check, added to the points already on
   * its server, keeps that server within its quota.
   */
  lemma AcceptedPointFitsQuota(point: Point, app: AppMeta, screensPerServer: int, existing: seq<Point>, s: string)
    requires ValidatePointLocal(point, Some(app), screensPerServer, existing) == Ok
    requires !IsExclusive(app) && Bound(point, s)
    requires forall i :: 0 <= i < |existing| ==> Bound(existing[i], s)
    ensures SumFor(existing + [point], s) <= screensPerServer
  {
    var all := existing + [point];
    assert all[..|all| - 1] == existing;
    TotalConnsOnOneServer(existing, s);
  }

  /**
   * The per-server connection sums. Points without a server are skipped;
   * every server some point names has an entry, whatever its sum.
   */
  method SumConns(points: seq<Point>) returns (m: map<string, int>)
    ensures forall s :: s in m <==> exists i :: 0 <= i < |points| && Bound(points[i], s)
    ensures forall s :: s in m ==> m[s] == SumFor(points, s)
    ensures forall s :: s !in m ==> SumFor(points, s) == 0
  {
    m := map[];
    for i := 0 to |points|
      invariant forall s :: s in m <==> exists k :: 0 <= k < i && Bound(points[k], s)
      invariant forall s :: s in m ==> m[s] == SumFor(points[..i], s)
    {
      var p := points[i];
      assert points[..i + 1][..i] == points[..i];
      if Present(p.serverId) {
        var key := p.serverId.value;
        if key !in m {
          SumForUnbound(points[..i], key);
        }
        m := m[key := (if key in m then m[key] else 0) + ConnsOrZero(p)];
      }
    }
    assert points[..|points|] == points;
    forall s | s !in m ensures SumFor(points, s) == 0 {
      SumForUnbound(points, s);
    }
  }

  // ---------------------------------------------------------------------
  // Local (app, user) uniqueness
  // ---------------------------------------------------------------------

  /** Points with a falsy app id or user are not checked. */
  predicate Keyed(p: Point) {
    Present(p.appId) && Present(p.user)
  }

  /** The string key the source builds: `${appId}::${user}`. */
  function AppUserKey(p: Point): string
    requires Keyed(p)
  {
    p.appId.value + "::" + p.user.value
  }

  predicate UniqueAppUserKeys(ps: seq<Point>) {
    forall i, j :: 0 <= i < j < |ps| && Keyed(ps[i]) && Keyed(ps[j]) ==> AppUserKey(ps[i]) != AppUserKey(ps[j])
  }

  /**
   * Fails exactly when two checked points build the same key; the message
   * names the user of the first point whose key was already seen.
   */
  method CheckLocalUniqueAppUser(points: seq<Point>) returns (r: Check)
    ensures r.Ok? <==> UniqueAppUserKeys(points)
    ensures r.Fail? ==>
      exists j :: 0 <= j < |points| && Keyed(points[j]) &&
        UniqueAppUserKeys(points[..j]) && !UniqueAppUserKeys(points[..j + 1]) &&
        r.msg == DuplicateUser(points[j].user.value)
  {
    var seen: set<string> := {};
    for i := 0 to |points|
      invariant UniqueAppUserKeys(points[..i])
      invariant forall key :: key in seen <==> exists k :: 0 <= k < i && Keyed(points[k]) && AppUserKey(points[k]) == key
    {
      var p := points[i];
      if Keyed(p) {
        var key := AppUserKey(p);
        if key in seen {
          var k :| 0 <= k < i && Keyed(points[k]) && AppUserKey(points[k]) == key;
          assert points[..i + 1][k] == points[k] && points[..i + 1][i] == p;
          return Fail(DuplicateUser(p.user.value));
        }
        seen := seen + {key};
      }
    }
    assert points[..|points|] == points;
    return Ok;
  }

  // The key is a concatenation, so different (app, user) pairs can collide.

  predicate UniqueAppUserPairs(ps: seq<Point>) {
    forall i, j :: 0 <= i < j < |ps| && Keyed(ps[i]) && Keyed(ps[j]) ==>
      (ps[i].appId, ps[i].user) != (ps[j].appId, ps[j].user)
  }

  /** The uniqueness check keyed by the pair itself. */
  method CheckLocalUniquePairs(points: seq<Point>) returns (r: Check)
    ensures r.Ok? <==> UniqueAppUserPairs(points)
    ensures r.Fail? ==>
      exists j :: 0 <= j < |points| && Keyed(points[j]) &&
        UniqueAppUserPairs(points[..j]) && !UniqueAppUserPairs(points[..j + 1]) &&
        r.msg == DuplicateUser(points[j].user.value)
  {
    var seen: set<(string, string)> := {};
    for i := 0 to |points|
      invariant UniqueAppUserPairs(points[..i])
      invariant forall key :: key in seen <==>
        exists k :: 0 <= k < i && Keyed(points[k]) && (points[k].appId.value, points[k].user.value) == key
    {
      var p := points[i];
      if Keyed(p) {
        var key := (p.appId.value, p.user.value);
        if key in seen {
          var k :| 0 <= k < i && Keyed(points[k]) && (points[k].appId.value, points[k].user.value) == key;
          assert points[..i + 1][k] == points[k] && points[..i + 1][i] == p;
          return Fail(DuplicateUser(p.user.value));
        }
        seen := seen + {key};
      }
    }
    assert points[..|points|] == points;
    return Ok;
  }

  /** Whatever the string-key check accepts, the pair check accepts too. */
  lemma UniqueKeysImplyUniquePairs(ps: seq<Point>)
    requires UniqueAppUserKeys(ps)
    ensures UniqueAppUserPairs(ps)
  {
  }

  /** Two distinct pairs that build the same key: ("a::b", "c") and ("a", "b::c"). */
  lemma AppUserKeyCollision()
    ensures
      var p := Point(None, Some("s1"), Some("a::b"), Some(1), Some("c"), Some("x"));
      var q := Point(None, Some("s1"), Some("a"), Some(1), Some("b::c"), Some("y"));
      UniqueAppUserPairs([p, q]) && !UniqueAppUserKeys([p, q])
  {
    var p := Point(None, Some("s1"), Some("a::b"), Some(1), Some("c"), Some("x"));
    var q := Point(None, Some("s1"), Some("a"), Some(1), Some("b::c"), Some("y"));
    assert AppUserKey(p) == "a::b::c" == AppUserKey(q);
    assert [p, q][0] == p && [p, q][1] == q;
  }

  // ---------------------------------------------------------------------
  // The blank records against the checks
  // ---------------------------------------------------------------------

  /**
   * The blank client: no identity, plan, due date or servers, empty text
   * fields and no points; its screen count of 1 is one the quota check
   * accepts, while the name, phone and due date of a blank form are refused.
   */
  lemma EmptyClientDefaults(today: int)
    ensures var c := EmptyClient();
      && c.id.None? && c.planId.None? && c.dueDate.None?
      && c.name == "" && c.phone == "" && c.email == ""
      && c.server1Id.None? && c.server2Id.None? && c.points == []
      && ValidateScreens(c.screensPerServer as real) == Accepted(1)
      && ValidateName(Some(c.name)) == Fail(NameRequired)
      && ValidatePhoneRaw(Some(c.phone)) == PhoneFail(PhoneRequired, "")
      && ValidateEmail(Some(c.email)) == Ok
      && ValidateDueDate(c.dueDate, today) == Fail(DueDateRequired)
  {
  }

  /**
   * The blank point has no identity, server or app, one connection and empty
   * credentials; the per-point check rejects it at its first step.
   */
  lemma EmptyPointRejected(appMeta: Option<AppMeta>, screensPerServer: int, existing: seq<Point>)
    ensures var p := EmptyPoint();
      && p.id.None? && p.serverId.None? && p.appId.None?
      && p.conns == Some(1) && p.user == Some("") && p.pass == Some("")
      && ValidatePointLocal(p, appMeta, screensPerServer, existing) == Fail(ServerRequired)
  {
  }

  /** Once its fields are filled in, the blank point's single connection suits an exclusive app. */
  lemma FilledEmptyPointFitsExclusiveApp(server: string, app: AppMeta, user: string, pass: string,
                                         screensPerServer: int, existing: seq<Point>)
    requires server != "" && app.id != "" && !Blank(user) && pass != ""
    requires IsExclusive(app)
    ensures var p := EmptyPoint().(serverId := Some(server), appId := Some(app.id), user := Some(user), pass := Some(pass));
      ValidatePointLocal(p, Some(app), screensPerServer, existing) == Ok
  {
  }
}
