/** Authentication state of the HTTP client and the refresh of an expired session token. */
module Session {
  import opened Wrappers

  type Token = string

  datatype Mode = Basic | Session

  datatype Failure = Timeout | Connection | Auth(status: int) | Rejected(status: int)

  datatype Memo = Memo(observed: Option<Token>, failure: Failure)

  /** What the environment answers to the refresh POST. */
  datatype Reply = NoReply(failure: Failure) | Answer(status: int, token: Option<Token>)

  /** The mode, the current token, the remembered refresh failure and the two managed headers. */
  datatype Client = Client(
    mode: Mode, key: Option<Token>, memo: Option<Memo>, authorization: bool, tokenHeader: Option<Token>)

  datatype Decision = Superseded | Remembered(failure: Failure) | MustPost

  function Judge(reply: Reply): Result<Token, Failure> {
    match reply
    case NoReply(failure) => Err(failure)
    case Answer(status, token) =>
      if status == 401 || status == 403 then Err(Auth(status))
      else if !(200 <= status < 300) then Err(Rejected(status))
      else if token.None? || token.value == "" then Err(Auth(401))
      else Ok(token.value)
  }

  /** A refresh succeeds exactly on a 2xx with a non-empty token, and takes that token; otherwise it fails as the
      request did, as unauthorized, or with the status. */
  lemma RefreshSucceedsExactly(reply: Reply)
    ensures Judge(reply).Ok? <==>
            && reply.Answer? && 200 <= reply.status <= 299
            && reply.token.Some? && reply.token.value != ""
    ensures Judge(reply).Ok? ==> Judge(reply).value == reply.token.value
    ensures Judge(reply).Err? ==>
              (Judge(reply).error == if reply.NoReply? then reply.failure
                                     else if reply.status == 401 || reply.status == 403 then Auth(reply.status)
                                     else if 200 <= reply.status <= 299 then Auth(401)
                                     else Rejected(reply.status))
  {
  }

  /** The decision a refresh takes once it holds the lock. */
  function Decide(c: Client, observed: Option<Token>): Decision {
    if observed.Some? && c.key != observed then Superseded
    else if c.memo.Some? && c.memo.value.observed == observed then Remembered(c.memo.value.failure)
    else MustPost
  }

  function WithToken(c: Client, token: Token): Client {
    Client(Session, Some(token), None, false, Some(token))
  }

  function WithBasic(c: Client): Client {
    Client(Basic, None, None, true, None)
  }

  /** The client after the POST was answered. */
  function Settled(c: Client, observed: Option<Token>, reply: Reply): Client {
    match Judge(reply)
    case Ok(token) => WithToken(c, token)
    case Err(failure) => c.(memo := Some(Memo(observed, failure)))
  }

  /** The headers always carry exactly the credential of the current mode. */
  predicate HeadersAgree(c: Client) {
    match c.mode
    case Basic => c.key.None? && c.authorization && c.tokenHeader.None?
    case Session => !c.authorization && c.tokenHeader == c.key
  }

  class HttpSession {
    var mode: Mode
    var key: Option<Token>
    var memo: Option<Memo>
    var authorization: bool
    var tokenHeader: Option<Token>

    function View(): Client
      reads this
    {
      Client(mode, key, memo, authorization, tokenHeader)
    }

    constructor (auth: Mode, sessionKey: Option<Token>)
      requires sessionKey != Some("")
      ensures HeadersAgree(View()) && memo == None && key == sessionKey
      ensures mode == if sessionKey.Some? then Session else auth
    {
      memo, key, tokenHeader := None, sessionKey, sessionKey;
      mode := if sessionKey.Some? then Session else auth;
      authorization := sessionKey.None? && auth == Basic;
    }

    method SetAuthToken(token: Token) returns (accepted: bool)
      modifies this
      ensures accepted <==> token != ""
      ensures View() == if accepted then WithToken(old(View()), token) else old(View())
      ensures accepted ==> View() == Client(Session, Some(token), None, false, Some(token))
    {
      if token == "" { return false; }
      mode := Session;
      key := Some(token);
      memo := None;
      authorization := false;
      tokenHeader := Some(token);
      return true;
    }

    method ResetBasicAuth()
      modifies this
      ensures View() == WithBasic(old(View())) == Client(Basic, None, None, true, None)
    {
      mode := Basic;
      key := None;
      memo := None;
      tokenHeader := None;
      authorization := true;
    }

    /** One refresh under the lock; `reply` is what the service would answer to a POST. */
    method RefreshSession(observed: Option<Token>, reply: Reply) returns (failure: Option<Failure>, posted: bool)
      modifies this
      ensures posted <==> Decide(old(View()), observed) == MustPost
      ensures posted <==>
              && (observed == None || old(key) == observed)
              && (old(memo) == None || old(memo).value.observed != observed)
      ensures View() == if posted then Settled(old(View()), observed, reply) else old(View())
      ensures failure == match Decide(old(View()), observed)
                         case Superseded => None
                         case Remembered(f) => Some(f)
                         case MustPost => (match Judge(reply) case Ok(_) => None case Err(f) => Some(f))
      // Without a POST, either the token has changed already or the remembered failure is raised.
      ensures !posted ==>
                && unchanged(this)
                && failure == if observed.Some? && key != observed then None else Some(memo.value.failure)
      // A POST either installs its token or leaves its failure behind.
      ensures posted && failure.None? ==>
                reply.Answer? && View() == Client(Session, reply.token, None, false, reply.token)
      ensures posted && failure.Some? ==>
                View() == old(View()).(memo := Some(Memo(observed, failure.value)))
    {
      posted := false;
      if observed != None && key != observed { return None, posted; }
      if memo.Some? && memo.value.observed == observed {
        failure := Some(memo.value.failure);
      } else {
        posted := true;
        match reply {
          case NoReply(f) => failure := Some(f);
          case Answer(status, token) =>
            if status == 401 || status == 403 {
              failure := Some(Auth(status));
            } else if !(200 <= status < 300) {
              failure := Some(Rejected(status));
            } else if token.None? || token.value == "" {
              failure := Some(Auth(401));
            } else {
              var _ := SetAuthToken(token.value);
              return None, posted;
            }
        }
      }
      memo := Some(Memo(observed, failure.value));
    }
  }

  /** No operation leaves the headers with the credential of another mode. */
  lemma HeadersStayInStep(c: Client, observed: Option<Token>, reply: Reply, token: Token)
    requires HeadersAgree(c)
    ensures HeadersAgree(Settled(c, observed, reply)) && HeadersAgree(WithToken(c, token)) && HeadersAgree(WithBasic(c))
  {
  }

  /** Exactly when the same observation would be posted a second time: after a success that cannot be told
      apart from no refresh at all, because nothing was observed or the old token came back. */
  lemma PostsAgainExactlyWhen(c: Client, observed: Option<Token>, reply: Reply)
    requires Decide(c, observed) == MustPost
    ensures Decide(Settled(c, observed, reply), observed) == MustPost
            <==> Judge(reply).Ok? && (observed == None || Judge(reply).value == observed.value)
  {
  }
}
