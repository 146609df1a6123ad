/**
 * The records the client form edits and the validators inspect, and the
 * blank values a new form starts from (js/clients/clients-models.js).
 *
 * Nullable fields are `Option`s: `None` stands for both `null` and a
 * missing property, which the core never tells apart. A due date that is
 * the empty string is `None` too, since the due-date check treats every
 * falsy value as absent; `Some(Unparseable)` is only a non-empty string
 * that does not parse.
 */
module ClientsModels {
  import opened Common

  /**
   * A due date as `new Date(text)` reads it: a calendar day, numbered
   * consecutively, or the invalid date a malformed string produces.
   */
  datatype DateText = Day(day: int) | Unparseable

  /** One (server, app) credential binding of a client. */
  datatype Point = Point(
    id: Option<string>,
    serverId: Option<string>,
    appId: Option<string>,
    conns: Option<int>,
    user: Option<string>,
    pass: Option<string>)

  /** What the validators need to know of an app from the catalogue. */
  datatype AppMeta = AppMeta(id: string, multiplosAcessos: Option<bool>)

  datatype Client = Client(
    id: Option<string>,
    name: string,
    phone: string,
    email: string,
    planId: Option<string>,
    dueDate: Option<DateText>,
    screensPerServer: int,
    server1Id: Option<string>,
    server2Id: Option<string>,
    points: seq<Point>)

  /** The client a "new client" form starts from. */
  function EmptyClient(): (c: Client)
    ensures c.id.None? && c.planId.None? && c.dueDate.None?
    ensures c.name == "" && c.phone == "" && c.email == ""
    ensures c.screensPerServer == 1
    ensures c.server1Id.None? && c.server2Id.None?
    ensures c.points == []
  {
    Client(
      id := None,
      name := "",
      phone := "",
      email := "",
      planId := None,
      dueDate := None,
      screensPerServer := 1,
      server1Id := None,
      server2Id := None,
      points := [])
  }

  /** The point an "add point" form starts from. */
  function EmptyPoint(): (p: Point)
    ensures p.id.None? && p.serverId.None? && p.appId.None?
    ensures p.conns == Some(1)
    ensures p.user == Some("") && p.pass == Some("")
  {
    Point(id := None, serverId := None, appId := None, conns := Some(1), user := Some(""), pass := Some(""))
  }
}
