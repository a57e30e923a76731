/** process_request of server.c: the login state of one connection, the
    three requests BYE, USER <name> and POST <text>, and the one coded
    response line each request is answered with. */
module Session {
  import opened Wire
  import opened Accounts
  import Framing

  // ---------------------------------------------------------------------
  // Tokens, as sscanf's "%s" reads them

  /** isspace in the C locale: space, \t, \n, \v, \f and \r. */
  predicate IsSpace(b: byte) {
    b == SPACE || 9 <= b <= 13
  }

  /** A maximal run of non-space bytes, as one "%s" conversion stores it. */
  predicate IsWord(w: seq<byte>) {
    |w| > 0 && forall k | 0 <= k < |w| :: !IsSpace(w[k])
  }

  /** The number of spaces at the head of s. */
  function LeadingSpaces(s: seq<byte>): (n: nat)
    ensures n <= |s| && (n < |s| ==> !IsSpace(s[n]))
  {
    if s != [] && IsSpace(s[0]) then 1 + LeadingSpaces(s[1..]) else 0
  }

  /** The length of the word at the head of s. */
  function WordLength(s: seq<byte>): (n: nat)
    ensures n <= |s| && (n < |s| ==> IsSpace(s[n]))
    ensures s != [] && !IsSpace(s[0]) ==> n > 0
  {
    if s != [] && !IsSpace(s[0]) then 1 + WordLength(s[1..]) else 0
  }

  /** The runs LeadingSpaces and WordLength measure are all spaces and all
      non-spaces. */
  lemma {:induction false} RunsAreUniform(s: seq<byte>)
    ensures forall k | 0 <= k < LeadingSpaces(s) :: IsSpace(s[k])
    ensures forall k | 0 <= k < WordLength(s) :: !IsSpace(s[k])
    decreases |s|
  {
    if s != [] {
      RunsAreUniform(s[1..]);
    }
  }

  /** The words of s, left to right: what successive "%s" conversions read. */
  function Tokens(s: seq<byte>): seq<seq<byte>>
    decreases |s|
  {
    var t := s[LeadingSpaces(s)..];
    if t == [] then []
    else
      var n := WordLength(t);
      [t[..n]] + Tokens(t[n..])
  }

  /** Every token is a nonempty run of non-space bytes. */
  lemma {:induction false} TokensAreWords(s: seq<byte>)
    ensures forall k | 0 <= k < |Tokens(s)| :: IsWord(Tokens(s)[k])
    decreases |s|
  {
    var t := s[LeadingSpaces(s)..];
    if t != [] {
      var n := WordLength(t);
      TokensAreWords(t[n..]);
      assert IsWord(t[..n]) by {
        RunsAreUniform(t);
      }
    }
  }

  lemma {:induction false} WordLengthOfWord(w: seq<byte>, rest: seq<byte>)
    requires IsWord(w) && (rest == [] || IsSpace(rest[0]))
    ensures WordLength(w + rest) == |w|
    decreases |w|
  {
    assert (w + rest)[0] == w[0];
    if |w| > 1 {
      assert (w + rest)[1..] == w[1..] + rest;
      WordLengthOfWord(w[1..], rest);
    } else {
      assert (w + rest)[1..] == rest;
    }
  }

  /** A word followed by the end or by a space is read as one token. */
  lemma TokensOfWord(w: seq<byte>, rest: seq<byte>)
    requires IsWord(w) && (rest == [] || IsSpace(rest[0]))
    ensures Tokens(w + rest) == [w] + Tokens(rest)
  {
    WordLengthOfWord(w, rest);
    assert (w + rest)[..|w|] == w && (w + rest)[|w|..] == rest;
  }

  /** Spaces before a token are skipped. */
  lemma TokensSkipSpace(b: byte, rest: seq<byte>)
    requires IsSpace(b)
    ensures Tokens([b] + rest) == Tokens(rest)
  {
    assert ([b] + rest)[1..] == rest;
    assert ([b] + rest)[LeadingSpaces([b] + rest)..] == rest[LeadingSpaces(rest)..];
  }

  /** A string of spaces holds no token. */
  lemma {:induction false} TokensOfSpaces(s: seq<byte>)
    requires forall k | 0 <= k < |s| :: IsSpace(s[k])
    ensures Tokens(s) == []
    decreases |s|
  {
    if s != [] {
      TokensSkipSpace(s[0], s[1..]);
      assert [s[0]] + s[1..] == s;
      TokensOfSpaces(s[1..]);
    }
  }

  // ---------------------------------------------------------------------
  // Requests

  const ByeKeyword: seq<Printable> := "BYE"
  const UserKeyword: seq<Printable> := "USER"
  const PostKeyword: seq<Printable> := "POST"

  /** A request as process_request tells them apart. */
  datatype Request = Bye | User(name: seq<byte>) | Post(text: seq<byte>) | Invalid

  /** The branch process_request takes: the whole string "BYE"; otherwise
      the first two words, provided there are two, with "USER" or "POST" as
      the first; anything else is invalid. Keywords are case-sensitive, and
      words after the second are ignored. */
  function Parse(request: CString): (q: Request)
    ensures q.User? || q.Post? ==> |Tokens(request)| >= 2 && request != Ascii(ByeKeyword)
    ensures q.User? ==> Tokens(request)[0] == Ascii(UserKeyword) && q.name == Tokens(request)[1]
    ensures q.Post? ==> Tokens(request)[0] == Ascii(PostKeyword) && q.text == Tokens(request)[1]
    ensures q.Bye? <==> request == Ascii(ByeKeyword)
  {
    if request == Ascii(ByeKeyword) then Bye
    else
      var ws := Tokens(request);
      if |ws| < 2 then Invalid
      else if ws[0] == Ascii(UserKeyword) then User(ws[1])
      else if ws[0] == Ascii(PostKeyword) then Post(ws[1])
      else Invalid
  }

  /** Conversely, a request other than "BYE" whose first of two or more
      tokens is a keyword selects that command, with the second token as its
      argument, whatever white space surrounds them. */
  lemma ParseSelects(request: CString)
    requires request != Ascii(ByeKeyword) && |Tokens(request)| >= 2
    ensures Tokens(request)[0] == Ascii(UserKeyword) ==> Parse(request) == User(Tokens(request)[1])
    ensures Tokens(request)[0] == Ascii(PostKeyword) ==> Parse(request) == Post(Tokens(request)[1])
  {
    assert Ascii(UserKeyword) != Ascii(PostKeyword) by {
      assert Ascii(UserKeyword)[0] as int == 'U' as int;
      assert Ascii(PostKeyword)[0] as int == 'P' as int;
    }
  }

  /** A request whose argument is a single NUL-free word. */
  predicate WellFormed(q: Request) {
    match q
    case Bye => true
    case User(name) => IsWord(name) && NulFree(name)
    case Post(text) => IsWord(text) && NulFree(text)
    case Invalid => false
  }

  /** The request line a client sends for a command: the keyword, or the
      keyword, a space and the argument. */
  function Render(q: Request): CString
    requires WellFormed(q)
  {
    match q
    case Bye => Ascii(ByeKeyword)
    case User(name) => Ascii(UserKeyword) + [SPACE] + name
    case Post(text) => Ascii(PostKeyword) + [SPACE] + text
  }

  lemma KeywordIsWord(k: seq<Printable>)
    requires |k| > 0 && forall i | 0 <= i < |k| :: k[i] != ' '
    ensures IsWord(Ascii(k))
  {
    var b := Ascii(k);
    forall i | 0 <= i < |b| ensures !IsSpace(b[i]) {
      assert b[i] as int == k[i] as int;
    }
  }

  /** A keyword, a space, a word and what follows: the keyword and the word
      are the first two tokens. */
  lemma TokensOfCommand(k: seq<byte>, arg: seq<byte>, more: seq<byte>)
    requires IsWord(k) && IsWord(arg) && (more == [] || IsSpace(more[0]))
    ensures var ws := Tokens(k + [SPACE] + arg + more);
            |ws| >= 2 && ws[0] == k && ws[1] == arg
  {
    var tail := [SPACE] + (arg + more);
    assert k + [SPACE] + arg + more == k + tail;
    assert Tokens(k + tail) == [k] + Tokens(arg + more) by {
      TokensOfWord(k, tail);
      TokensSkipSpace(SPACE, arg + more);
    }
    assert |Tokens(arg + more)| >= 1 && Tokens(arg + more)[0] == arg by {
      TokensOfWord(arg, more);
    }
  }

  /** A line made of a keyword other than "BYE", a space, a word and then
      nothing or a space and anything: the first two tokens are the keyword
      and the word, and the line is not "BYE". */
  lemma KeywordLine(keyword: seq<Printable>, arg: seq<byte>, more: seq<byte>)
    requires keyword == UserKeyword || keyword == PostKeyword
    requires IsWord(arg) && (more == [] || IsSpace(more[0]))
    ensures var line := Ascii(keyword) + [SPACE] + arg + more;
            var ws := Tokens(line);
            |ws| >= 2 && ws[0] == Ascii(keyword) && ws[1] == arg && line != Ascii(ByeKeyword)
  {
    var line := Ascii(keyword) + [SPACE] + arg + more;
    KeywordIsWord(keyword);
    TokensOfCommand(Ascii(keyword), arg, more);
    assert line[|keyword|] == SPACE;
    assert Ascii(ByeKeyword)[|ByeKeyword| - 1] != SPACE;
  }

  /** Parsing reads back the command a well-formed request line renders. */
  lemma ParseRender(q: Request)
    requires WellFormed(q)
    ensures Parse(Render(q)) == q
  {
    match q
    case Bye =>
    case User(name) =>
      KeywordLine(UserKeyword, name, []);
      assert Render(q) == Ascii(UserKeyword) + [SPACE] + name + [];
    case Post(text) =>
      KeywordLine(PostKeyword, text, []);
      assert Render(q) == Ascii(PostKeyword) + [SPACE] + text + [];
  }

  lemma NulFreeJoin(a: seq<byte>, b: seq<byte>)
    requires NulFree(a) && NulFree(b)
    ensures NulFree(a + b)
  {
    forall k | 0 <= k < |a + b| ensures (a + b)[k] != NUL {
      if k >= |a| {
        assert (a + b)[k] == b[k - |a|];
      }
    }
  }

  /** Only the first word after the keyword is the argument: "POST a b c"
      posts "a", and "USER a b" logs in as "a". */
  lemma ParseDropsExtraWords(q: Request, more: CString)
    requires WellFormed(q) && !q.Bye?
    requires more == [] || IsSpace(more[0])
    ensures NulFree(Render(q) + more) && Parse(Render(q) + more) == q
  {
    NulFreeJoin(Render(q), more);
    var line: CString := Render(q) + more;
    if q.User? {
      assert line == Ascii(UserKeyword) + [SPACE] + q.name + more;
      KeywordLine(UserKeyword, q.name, more);
    } else {
      assert line == Ascii(PostKeyword) + [SPACE] + q.text + more;
      KeywordLine(PostKeyword, q.text, more);
    }
  }

  /** A request of fewer than two words, other than "BYE" itself, is
      invalid. */
  lemma ShortRequestIsInvalid(request: CString)
    requires request != Ascii(ByeKeyword) && |Tokens(request)| < 2
    ensures Parse(request) == Invalid
  {
  }

  // ---------------------------------------------------------------------
  // Responses

  /** The responses process_request sends, one per request. */
  datatype Reply =
    | LoginOk | PostOk | LogoutOk
    | AccountLocked | AccountMissing | AlreadyLoggedIn
    | LogoutRefused | PostRefused
    | InvalidRequest

  function Code(r: Reply): int {
    match r
    case LoginOk => 110
    case PostOk => 120
    case LogoutOk => 130
    case AccountLocked => 211
    case AccountMissing => 212
    case AlreadyLoggedIn => 213
    case LogoutRefused => 221
    case PostRefused => 221
    case InvalidRequest => 300
  }

  const Text110: seq<Printable> := "110-Logged in successfully"
  const Text120: seq<Printable> := "120-Post successful"
  const Text130: seq<Printable> := "130-Logged out successfully!"
  const Text211: seq<Printable> := "211-Account is locked"
  const Text212: seq<Printable> := "212-Account does not exist"
  /** The three refusals read "<code>-<what> FAILED, " and a reason; both
      221 refusals give the same reason. */
  const LoginFailedPrefix: seq<Printable> := "213-Logged in FAILED, "
  const LogoutFailedPrefix: seq<Printable> := "221-Log out FAILED, "
  const PostFailedPrefix: seq<Printable> := "221-Post FAILED, "
  const AlreadyLoggedInReason: seq<Printable> := "you have already logged in"
  const NotLoggedIn: seq<Printable> := "you have NOT logged in yet"
  const Text300: seq<Printable> := "300-Invalid request"

  /** The response text without its "\r\n". */
  function Text(r: Reply): seq<Printable> {
    match r
    case LoginOk => Text110
    case PostOk => Text120
    case LogoutOk => Text130
    case AccountLocked => Text211
    case AccountMissing => Text212
    case AlreadyLoggedIn => LoginFailedPrefix + AlreadyLoggedInReason
    case LogoutRefused => LogoutFailedPrefix + NotLoggedIn
    case PostRefused => PostFailedPrefix + NotLoggedIn
    case InvalidRequest => Text300
  }

  /** The bytes send_all is given: the text and the delimiter. */
  function Line(r: Reply): (l: seq<byte>)
    ensures |l| == |Text(r)| + 2 && l[|l| - 2..] == CRLF
    ensures forall i | 0 <= i < |Text(r)| :: l[i] as int == Text(r)[i] as int
  {
    Ascii(Text(r)) + CRLF
  }

  function DigitValue(b: byte): int {
    b as int - '0' as int
  }

  /** l opens with the three decimal digits of code and a '-'. */
  predicate OpensWithCode(l: seq<byte>, code: int) {
    && |l| > 4
    && DigitValue(l[0]) * 100 + DigitValue(l[1]) * 10 + DigitValue(l[2]) == code
    && l[3] as int == '-' as int
  }

  /** A text opening with three digits and a '-' gives a line that opens
      with the same bytes. */
  lemma CodePrefix(t: seq<Printable>, code: int)
    requires |t| > 4 && t[3] == '-'
    requires (t[0] as int - '0' as int) * 100 + (t[1] as int - '0' as int) * 10
             + (t[2] as int - '0' as int) == code
    ensures OpensWithCode(Ascii(t) + CRLF, code)
  {
    var l := Ascii(t) + CRLF;
    assert l[0] as int == t[0] as int && l[1] as int == t[1] as int;
    assert l[2] as int == t[2] as int && l[3] as int == t[3] as int;
  }

  /** A response line opens with its three-digit code and a '-'. */
  lemma LineStartsWithCode(r: Reply)
    ensures OpensWithCode(Line(r), Code(r))
  {
    match r
    case LoginOk => CodePrefix(Text110, 110);
    case PostOk => CodePrefix(Text120, 120);
    case LogoutOk => CodePrefix(Text130, 130);
    case AccountLocked => CodePrefix(Text211, 211);
    case AccountMissing => CodePrefix(Text212, 212);
    case AlreadyLoggedIn => CodePrefix(LoginFailedPrefix + AlreadyLoggedInReason, 213);
    case LogoutRefused => CodePrefix(LogoutFailedPrefix + NotLoggedIn, 221);
    case PostRefused => CodePrefix(PostFailedPrefix + NotLoggedIn, 221);
    case InvalidRequest => CodePrefix(Text300, 300);
  }

  /** Printable text holds no NUL and no delimiter, so text plus "\r\n" is
      exactly one line: its only delimiter is the final one. */
  lemma PrintableLine(t: seq<Printable>)
    ensures var l := Ascii(t) + CRLF;
            NulFree(Ascii(t)) && Framing.NoDelimiterBefore(Ascii(t) + CRLF, |t|)
            && Framing.FindDelimiter(l) == Some(|t|)
  {
    var b := Ascii(t);
    var l := b + CRLF;
    assert l[..|t|] == b;
    forall j | 0 <= j < |t| ensures !Framing.DelimiterAt(l, j) {
      assert l[j] == b[j] && b[j] as int == t[j] as int;
    }
    Framing.FindDelimiterIs(l, |t|);
  }

  /** Every response is one line ending in its only "\r\n". */
  lemma LineIsOneLine(r: Reply)
    ensures Framing.FindDelimiter(Line(r)) == Some(|Line(r)| - 2)
  {
    PrintableLine(Text(r));
  }

  /** A client that frames the byte stream with recv_until_delimiter reads
      back the response text of the line at the head of the stream,
      whatever follows it and however the bytes are split into chunks. */
  lemma ClientReadsReply(r: Reply, work: seq<byte>, script: seq<Event>, maxLen: nat, tail: seq<byte>)
    requires maxLen >= 1 && |work| < maxLen && |Line(r)| < maxLen
    requires work + Delivered(script) == Line(r) + tail
    ensures Framing.Frame(work, script, maxLen).outcome == Framing.Message(Ascii(Text(r)))
    ensures var f := Framing.Frame(work, script, maxLen);
            f.carry + Delivered(f.rest) == tail
  {
    PrintableLine(Text(r));
    assert Line(r) + tail == Ascii(Text(r)) + CRLF + tail;
    Framing.NextLine(work, script, maxLen, Ascii(Text(r)), tail);
  }

  // ---------------------------------------------------------------------
  // The transition

  /** is_logined: 0 or 1. */
  datatype State = LoggedOut | LoggedIn

  datatype Outcome = Outcome(next: State, reply: Reply)

  /** The state a response leaves behind: only a successful login or
      logout changes it. */
  function After(s: State, r: Reply): State {
    if r == LoginOk then LoggedIn
    else if r == LogoutOk then LoggedOut
    else s
  }

  /** Responses that are only sent while logged in, and those that are
      only sent while logged out. */
  predicate NeedsLogin(r: Reply) {
    r == PostOk || r == LogoutOk || r == AlreadyLoggedIn
  }

  predicate NeedsLogout(r: Reply) {
    r == LoginOk || r == AccountLocked || r == AccountMissing
    || r == LogoutRefused || r == PostRefused
  }

  /** process_request(sock, request, &is_logined): the response sent and the
      new value of is_logined. The account lookup runs before the login
      check but has no effect, so its place does not matter here. */
  function ProcessRequest(s: State, request: CString, file: AccountFile): (o: Outcome)
    // the state follows the response
    ensures o.next == After(s, o.reply)
    // gating
    ensures NeedsLogin(o.reply) ==> s.LoggedIn?
    ensures NeedsLogout(o.reply) ==> s.LoggedOut?
  {
    match Parse(request)
    case Bye =>
      if s == LoggedIn then Outcome(LoggedOut, LogoutOk) else Outcome(s, LogoutRefused)
    case User(name) =>
      var res := Status(file, name);
      if s == LoggedIn then Outcome(s, AlreadyLoggedIn)
      else if res == Active then Outcome(LoggedIn, LoginOk)
      else if res == Locked then Outcome(s, AccountLocked)
      else Outcome(s, AccountMissing)
    case Post(_) =>
      if s == LoggedIn then Outcome(s, PostOk) else Outcome(s, PostRefused)
    case Invalid => Outcome(s, InvalidRequest)
  }

  /** When each response is sent: a login succeeds exactly for USER with
      an active account while logged out, a post and a logout exactly for
      POST and BYE while logged in, and only an unparsable request is
      invalid. */
  lemma SuccessExactly(s: State, request: CString, file: AccountFile)
    ensures var o := ProcessRequest(s, request, file);
            var q := Parse(request);
            && (o.reply == LoginOk <==> s.LoggedOut? && q.User? && Status(file, q.name) == Active)
            && (o.reply == PostOk <==> s.LoggedIn? && q.Post?)
            && (o.reply == LogoutOk <==> s.LoggedIn? && q.Bye?)
            && (o.reply == InvalidRequest <==> q.Invalid?)
  {
  }

  /** "BYE" logs out when logged in, and is refused otherwise. */
  lemma ByeRequest(s: State, file: AccountFile)
    ensures ProcessRequest(s, Ascii(ByeKeyword), file)
            == if s == LoggedIn then Outcome(LoggedOut, LogoutOk) else Outcome(s, LogoutRefused)
  {
  }

  /** "USER <name>": refused while logged in whatever the account;
      otherwise the account's status decides, and any status but 1 or 0
      reads as a missing account. */
  lemma UserRequest(s: State, request: CString, name: seq<byte>, file: AccountFile)
    requires Parse(request) == User(name)
    ensures var o := ProcessRequest(s, request, file);
            var st := Status(file, name);
            o == if s == LoggedIn then Outcome(s, AlreadyLoggedIn)
                 else if st == Active then Outcome(LoggedIn, LoginOk)
                 else if st == Locked then Outcome(s, AccountLocked)
                 else Outcome(s, AccountMissing)
  {
  }

  /** "POST <text>": accepted while logged in, refused otherwise; the state
      is never changed. */
  lemma PostRequest(s: State, request: CString, text: seq<byte>, file: AccountFile)
    requires Parse(request) == Post(text)
    ensures ProcessRequest(s, request, file)
            == if s == LoggedIn then Outcome(s, PostOk) else Outcome(s, PostRefused)
  {
  }

  /** Any other request is answered 300 and leaves the state alone. */
  lemma InvalidRequestIgnored(s: State, request: CString, file: AccountFile)
    requires Parse(request).Invalid?
    ensures ProcessRequest(s, request, file) == Outcome(s, InvalidRequest)
  {
  }

  // ---------------------------------------------------------------------
  // A connection

  datatype Transcript = Transcript(replies: seq<Reply>, last: State)

  /** The request loop of a connection's child process: is_logined starts at
      0 and each framed request is processed in turn, the login state carried
      from one to the next. An empty request line makes recv_until_delimiter
      return 0, which the loop takes for a closed connection: it answers
      nothing more. Every request before the first empty one gets exactly one
      response. */
  function Serve(s: State, requests: seq<CString>, file: AccountFile): (t: Transcript)
    ensures |t.replies| <= |requests|
    decreases |requests|
  {
    if requests == [] || requests[0] == [] then Transcript([], s)
    else
      var o := ProcessRequest(s, requests[0], file);
      var t := Serve(o.next, requests[1..], file);
      Transcript([o.reply] + t.replies, t.last)
  }

  /** The requests answered are exactly those before the first empty one. */
  lemma {:induction false} ServeUntilEmptyLine(s: State, requests: seq<CString>, file: AccountFile)
    ensures var n := |Serve(s, requests, file).replies|;
            && (forall k | 0 <= k < n :: requests[k] != [])
            && (n < |requests| ==> requests[n] == [])
    decreases |requests|
  {
    if requests != [] && requests[0] != [] {
      var o := ProcessRequest(s, requests[0], file);
      ServeUntilEmptyLine(o.next, requests[1..], file);
      var n := |Serve(o.next, requests[1..], file).replies|;
      assert |Serve(s, requests, file).replies| == n + 1;
      forall k | 1 <= k < n + 1 ensures requests[k] != [] {
        assert requests[k] == requests[1..][k - 1];
      }
      if n + 1 < |requests| {
        assert requests[n + 1] == requests[1..][n];
      }
    }
  }

  /** An empty line ends the session without a response, where
      process_request itself would have answered it as an invalid request:
      no request from it onwards is answered. */
  lemma EmptyLineEndsSession(s: State, requests: seq<CString>, file: AccountFile, k: nat)
    requires k < |requests| && requests[k] == []
    ensures |Serve(s, requests, file).replies| <= k
    ensures ProcessRequest(s, requests[k], file).reply == InvalidRequest
  {
    ServeUntilEmptyLine(s, requests, file);
    assert Tokens(requests[k]) == [];
  }

  /** The login state a sequence of responses leaves behind. */
  function Replay(s: State, replies: seq<Reply>): State
    decreases |replies|
  {
    if replies == [] then s
    else After(Replay(s, replies[..|replies| - 1]), replies[|replies| - 1])
  }

  lemma {:induction false} ReplayCons(s: State, r: Reply, rs: seq<Reply>)
    ensures Replay(s, [r] + rs) == Replay(After(s, r), rs)
    decreases |rs|
  {
    if rs != [] {
      var init := rs[..|rs| - 1];
      assert ([r] + rs)[..|rs|] == [r] + init;
      assert ([r] + rs)[|rs|] == rs[|rs| - 1];
      ReplayCons(s, r, init);
    } else {
      assert [r][..0] == [];
    }
  }

  /** Each response is the one process_request gives in the state the
      earlier responses left behind. */
  lemma {:induction false} ServeAnswersInTurn(s: State, requests: seq<CString>, file: AccountFile, i: nat)
    requires i < |Serve(s, requests, file).replies|
    ensures var t := Serve(s, requests, file);
            ProcessRequest(Replay(s, t.replies[..i]), requests[i], file).reply == t.replies[i]
    decreases i
  {
    ServeFirst(s, requests, file);
    if i == 0 {
      assert Serve(s, requests, file).replies[..0] == [];
    } else {
      var o := ProcessRequest(s, requests[0], file);
      ServeShift(s, requests, file, i);
      ServeAnswersInTurn(o.next, requests[1..], file, i - 1);
    }
  }

  /** Response i of a connection is response i - 1 of the connection that
      starts after the first request, in the state the first response left. */
  lemma ServeShift(s: State, requests: seq<CString>, file: AccountFile, i: nat)
    requires 0 < i < |Serve(s, requests, file).replies|
    ensures var rs := Serve(s, requests, file).replies;
            var o := ProcessRequest(s, requests[0], file);
            var t := Serve(o.next, requests[1..], file);
            && i - 1 < |t.replies|
            && Replay(s, rs[..i]) == Replay(o.next, t.replies[..i - 1])
            && rs[i] == t.replies[i - 1] && requests[i] == requests[1..][i - 1]
  {
    var rs := Serve(s, requests, file).replies;
    var o := ProcessRequest(s, requests[0], file);
    var t := Serve(o.next, requests[1..], file);
    assert rs == [o.reply] + t.replies by {
      ServeFirst(s, requests, file);
    }
    assert rs[..i] == [o.reply] + t.replies[..i - 1];
    ReplayCons(s, o.reply, t.replies[..i - 1]);
  }

  /** The loop's step: a nonempty request is answered, and the loop goes on
      in the state that answer leaves. */
  lemma ServeFirst(s: State, requests: seq<CString>, file: AccountFile)
    requires |Serve(s, requests, file).replies| > 0
    ensures requests != [] && requests[0] != []
    ensures var o := ProcessRequest(s, requests[0], file);
            var t := Serve(o.next, requests[1..], file);
            Serve(s, requests, file) == Transcript([o.reply] + t.replies, t.last)
  {
  }

  /** The state after the last request is the one the responses leave. */
  lemma {:induction false} ServeEndsInReplay(s: State, requests: seq<CString>, file: AccountFile)
    ensures var t := Serve(s, requests, file);
            t.last == Replay(s, t.replies)
    decreases |requests|
  {
    if requests != [] && requests[0] != [] {
      var o := ProcessRequest(s, requests[0], file);
      ServeEndsInReplay(o.next, requests[1..], file);
      ReplayCons(s, o.reply, Serve(o.next, requests[1..], file).replies);
    }
  }

  /** From the logged-out state, being logged in means some login succeeded
      and no logout has succeeded since. */
  lemma {:induction false} LoginPrecedes(rs: seq<Reply>)
    requires Replay(LoggedOut, rs) == LoggedIn
    ensures exists j | 0 <= j < |rs| :: rs[j] == LoginOk && forall k | j < k < |rs| :: rs[k] != LogoutOk
    decreases |rs|
  {
    var n := |rs| - 1;
    var init := rs[..n];
    if rs[n] != LoginOk {
      LoginPrecedes(init);
      var j :| 0 <= j < |init| && init[j] == LoginOk && forall k | j < k < |init| :: init[k] != LogoutOk;
      assert rs[j] == LoginOk;
    }
  }

  /** A post is accepted only in a session where a login succeeded earlier
      and no logout succeeded in between. */
  lemma PostNeedsLogin(requests: seq<CString>, file: AccountFile, i: nat)
    requires i < |Serve(LoggedOut, requests, file).replies|
    requires Serve(LoggedOut, requests, file).replies[i] == PostOk
    ensures var rs := Serve(LoggedOut, requests, file).replies;
            exists j | 0 <= j < i :: rs[j] == LoginOk && forall k | j < k < i :: rs[k] != LogoutOk
  {
    var rs := Serve(LoggedOut, requests, file).replies;
    ServeAnswersInTurn(LoggedOut, requests, file, i);
    LoginPrecedes(rs[..i]);
    var j :| 0 <= j < i && rs[..i][j] == LoginOk && forall k | j < k < i :: rs[..i][k] != LogoutOk;
    assert rs[j] == LoginOk;
    forall k | j < k < i ensures rs[k] != LogoutOk {
      assert rs[..i][k] == rs[k];
    }
  }

  /** A typical connection: log in with an active account, post, log out,
      and a second "BYE" is refused because the session is logged out. */
  lemma LoginPostLogout(requests: seq<CString>, name: seq<byte>, file: AccountFile)
    requires |requests| == 4 && Status(file, name) == Active
    requires Parse(requests[0]) == User(name) && Parse(requests[1]).Post?
    requires Parse(requests[2]) == Bye && Parse(requests[3]) == Bye
    ensures var t := Serve(LoggedOut, requests, file);
            t.replies == [LoginOk, PostOk, LogoutOk, LogoutRefused] && t.last == LoggedOut
  {
    var tail := requests[3..];
    assert tail[1..] == [];
    assert Serve(LoggedOut, tail, file) == Transcript([LogoutRefused], LoggedOut);
    tail := requests[2..];
    assert tail[1..] == requests[3..];
    assert Serve(LoggedIn, tail, file) == Transcript([LogoutOk, LogoutRefused], LoggedOut);
    tail := requests[1..];
    assert tail[1..] == requests[2..];
    assert Serve(LoggedIn, tail, file) == Transcript([PostOk, LogoutOk, LogoutRefused], LoggedOut);
    assert requests[1..] == tail;
  }
}
