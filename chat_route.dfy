/**
 * The stub chat endpoint `POST /api/chat` (app/api/chat/route.ts): it echoes the
 * last user message of the posted history, or greets when there is nothing to echo.
 */
module ChatRoute {
  import opened Wrappers
  import opened Types
  import ArrayOps

  /**
   * The fields of the parsed JSON body that the handler reads. `characterId` is
   * `None` when absent; `history` is `None` when absent or not an array.
   */
  datatype Body = Body(characterId: Option<string>, history: Option<seq<Message>>)

  /** The request body as received: JSON that failed to parse, or a parsed body. */
  datatype Request = Unparsable | Parsed(body: Body)

  datatype Response = Response(status: int, reply: string)

  /** The number of characters of the user's message that the reply repeats. */
  const EchoLimit: nat := 120

  const EchoPrefix: string := ") Düşündüm: "
  const EchoSuffix: string := " — harika bir fikir!"
  const GreetingSuffix: string := ") Merhaba!"

  /** A body that failed to parse is replaced by the empty object `{}`. */
  function BodyOf(req: Request): (b: Body)
    ensures req.Unparsable? ==> b.characterId.None? && b.history.None?
    ensures req.Parsed? ==> b == req.body
  {
    match req
    case Unparsable => Body(None, None)
    case Parsed(body) => body
  }

  /** How a template literal renders `characterId`: an absent value reads "undefined". */
  function ShowId(id: Option<string>): (r: string)
    ensures id.Some? ==> r == id.value
    ensures r == "undefined" <==> id.None? || id.value == "undefined"
  {
    match id
    case None => "undefined"
    case Some(s) => s
  }

  /** `[...history].reverse().find((m) => m.role === 'user')?.content` */
  function LastUserContent(history: Option<seq<Message>>): (r: Option<string>)
    ensures history.None? ==> r.None?
    ensures history.Some? ==> (r.None? <==> forall i :: 0 <= i < |history.value| ==> history.value[i].role != User)
    ensures r.Some? ==> exists i :: IsLastUser(history.value, i) && r.value == history.value[i].content
  {
    match history
    case None => None
    case Some(h) =>
      var isUser := (m: Message) => m.role == User;
      var rev := ArrayOps.Reverse(h);
      match ArrayOps.Find(rev, isUser)
      case None =>
        assert forall i :: 0 <= i < |h| ==> h[i].role != User by {
          forall i | 0 <= i < |h| ensures h[i].role != User {
            assert rev[|h| - 1 - i] == h[i];
          }
        }
        None
      case Some(m) =>
        assert exists i :: IsLastUser(h, i) && m.content == h[i].content by {
          ArrayOps.FindIsFirstMatch(rev, isUser);
          var k :| ArrayOps.IsFirstMatch(rev, isUser, k) && m == rev[k];
          var i := |h| - 1 - k;
          forall j | i < j < |h| ensures h[j].role != User {
            assert h[j] == rev[|h| - 1 - j];
          }
          assert IsLastUser(h, i);
        }
        Some(m.content)
  }

  /** `content.slice(0, 120)`: the part of the user's message that is echoed. */
  function Echoed(content: string): (e: string)
    ensures |e| <= EchoLimit && e <= content
    ensures |content| <= EchoLimit ==> e == content
    ensures |content| > EchoLimit ==> |e| == EchoLimit
  {
    if |content| <= EchoLimit then content else content[..EchoLimit]
  }

  /** The handler: the status and the `reply` field of the JSON it answers with. */
  function Post(req: Request): (resp: Response)
    ensures resp.status == 200
  {
    var body := BodyOf(req);
    var lastUser := LastUserContent(body.history);
    var reply :=
      if lastUser.Some? && lastUser.value != "" then
        "(" + ShowId(body.characterId) + EchoPrefix + Echoed(lastUser.value) + EchoSuffix
      else
        "(" + ShowId(body.characterId) + GreetingSuffix;
    Response(200, reply)
  }

  /** `i` is the position of the last user entry of `h`. */
  ghost predicate IsLastUser(h: seq<Message>, i: int)
  {
    0 <= i < |h| && h[i].role == User && forall j :: i < j < |h| ==> h[j].role != User
  }

  /** The content looked up is that of the last user entry, not of an earlier one. */
  lemma {:induction false} LastUserContentIsLast(h: seq<Message>, i: int)
    requires IsLastUser(h, i)
    ensures LastUserContent(Some(h)) == Some(h[i].content)
  {
    var isUser := (m: Message) => m.role == User;
    var r := ArrayOps.Reverse(h);
    var k := |h| - 1 - i;
    assert r[k] == h[i];
    forall j | 0 <= j < k ensures !isUser(r[j]) {
      assert r[j] == h[|h| - 1 - j];
    }
    assert ArrayOps.IsFirstMatch(r, isUser, k);
    ArrayOps.FindReturnsFirstMatch(r, isUser, k);
  }

  /** Without any user entry there is no content to echo. */
  lemma NoUserNoContent(h: seq<Message>)
    ensures LastUserContent(Some(h)).None? <==> forall i :: 0 <= i < |h| ==> h[i].role != User
  {
    var r := ArrayOps.Reverse(h);
    if LastUserContent(Some(h)).None? {
      forall i | 0 <= i < |h| ensures h[i].role != User {
        assert r[|h| - 1 - i] == h[i];
      }
    }
  }

  /** With non-empty last-user content, the reply echoes at most 120 characters of it. */
  lemma PostEchoesLastUser(req: Request, i: int)
    requires req.Parsed? && req.body.history.Some?
    requires IsLastUser(req.body.history.value, i)
    requires req.body.history.value[i].content != ""
    ensures var content := req.body.history.value[i].content;
      Post(req) == Response(200,
        "(" + ShowId(req.body.characterId) + ") Düşündüm: " + content[..if |content| < 120 then |content| else 120]
        + " — harika bir fikir!")
  {
    LastUserContentIsLast(req.body.history.value, i);
  }

  /** The greeting `(<characterId>) Merhaba!` answers whenever there is nothing to echo. */
  lemma PostGreets(req: Request)
    requires var h := BodyOf(req).history;
      h.None?
      || (forall i :: 0 <= i < |h.value| ==> h.value[i].role != User)
      || (exists i :: IsLastUser(h.value, i) && h.value[i].content == "")
    ensures Post(req) == Response(200, "(" + ShowId(BodyOf(req).characterId) + ") Merhaba!")
  {
    var h := BodyOf(req).history;
    if h.Some? {
      if forall i :: 0 <= i < |h.value| ==> h.value[i].role != User {
        NoUserNoContent(h.value);
      } else {
        var i :| IsLastUser(h.value, i) && h.value[i].content == "";
        LastUserContentIsLast(h.value, i);
      }
    }
  }

  /** A body that is not valid JSON still gets status 200 and the greeting for `undefined`. */
  lemma PostUnparsable()
    ensures Post(Unparsable) == Response(200, "(undefined) Merhaba!")
  {
  }

  /**
   * An empty last user message is not replaced by an earlier one: the handler
   * greets even though an earlier user message has text.
   */
  lemma NoFallbackToEarlierUser(id: Option<string>, earlier: Message, last: Message)
    requires earlier.role == User && earlier.content != ""
    requires last.role == User && last.content == ""
    ensures Post(Parsed(Body(id, Some([earlier, last])))).reply == "(" + ShowId(id) + ") Merhaba!"
  {
  }

  /** The reply depends on the body only through `characterId` and the last user content. */
  lemma PostDependsOnlyOnLastUser(a: Request, b: Request)
    requires BodyOf(a).characterId == BodyOf(b).characterId
    requires LastUserContent(BodyOf(a).history) == LastUserContent(BodyOf(b).history)
    ensures Post(a) == Post(b)
  {
  }
}
