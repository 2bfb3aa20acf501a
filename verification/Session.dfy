/**
 The session manager: messages are appended to a session and trimmed from the front, by number and then
 by estimated tokens.
 */
module Session {
  import opened Common

  datatype Message = Message(role: string, content: string, timestamp: int, tokens: nat)

  // ----- token estimate

  predicate IsChinese(c: char) {
    '\U{4E00}' <= c <= '\U{9FFF}'
  }

  function ChineseCount(text: string): nat {
    if text == "" then 0 else ChineseCount(text[..|text| - 1]) + if IsChinese(text[|text| - 1]) then 1 else 0
  }

  lemma {:induction false} ChineseCountBound(text: string)
    ensures ChineseCount(text) <= |text|
  {
    if text != "" {
      ChineseCountBound(text[..|text| - 1]);
    }
  }

  /** One token for each Chinese character and one for every four others. */
  function EstimateTokens(text: string): nat {
    ChineseCountBound(text);
    ChineseCount(text) + (|text| - ChineseCount(text)) / 4
  }

  lemma {:induction false} ChineseCounted(text: string, chinese: set<nat>)
    requires forall i: nat :: i in chinese <==> i < |text| && 0x4E00 <= text[i] as int <= 0x9FFF
    ensures ChineseCount(text) == |chinese|
  {
    if text == "" {
      assert chinese == {};
    } else {
      var last: nat := |text| - 1;
      ChineseCounted(text[..last], chinese - {last});
      assert chinese == if last in chinese then chinese - {last} + {last} else chinese - {last};
    }
  }

  /** A text with c Chinese characters, wherever they stand, and n others is taken for c + n / 4 tokens. */
  lemma EstimateExactly(text: string, chinese: set<nat>)
    requires forall i: nat :: i in chinese <==> i < |text| && 0x4E00 <= text[i] as int <= 0x9FFF
    ensures |chinese| <= |text| && EstimateTokens(text) == |chinese| + (|text| - |chinese|) / 4
  {
    ChineseCounted(text, chinese);
    ChineseCountBound(text);
  }

  function TotalTokens(ms: seq<Message>): nat {
    if ms == [] then 0 else ms[0].tokens + TotalTokens(ms[1..])
  }

  // ----- what a session should hold

  predicate Fits(ms: seq<Message>, maxMessages: int, maxTokens: int) {
    |ms| <= maxMessages && (TotalTokens(ms) <= maxTokens || |ms| <= 2)
  }

  /** Drop from the front until the rest fits, or nothing is left. */
  function Keep(ms: seq<Message>, maxMessages: int, maxTokens: int): seq<Message> {
    if ms == [] || Fits(ms, maxMessages, maxTokens) then ms else Keep(ms[1..], maxMessages, maxTokens)
  }

  lemma {:induction false} TokensOfSuffix(ms: seq<Message>, k: nat)
    requires k <= |ms|
    ensures TotalTokens(ms[k..]) <= TotalTokens(ms)
  {
    if k > 0 {
      TokensOfSuffix(ms[1..], k - 1);
      assert ms[1..][k - 1..] == ms[k..];
    } else {
      assert ms[0..] == ms;
    }
  }

  /** Keep returns a suffix; no longer suffix fits, and unless the limit is negative it and all shorter ones do. */
  lemma {:induction false} KeepIsLongest(ms: seq<Message>, maxMessages: int, maxTokens: int)
    ensures var kept := Keep(ms, maxMessages, maxTokens);
            var k := |ms| - |kept|;
            && 0 <= k <= |ms| && kept == ms[k..]
            && (forall j :: 0 <= j < k ==> !Fits(ms[j..], maxMessages, maxTokens))
            && (maxMessages >= 0 ==> forall j :: k <= j <= |ms| ==> Fits(ms[j..], maxMessages, maxTokens))
  {
    if ms == [] {
    } else if Fits(ms, maxMessages, maxTokens) {
      forall j | 0 <= j <= |ms|
        ensures Fits(ms[j..], maxMessages, maxTokens)
      {
        TokensOfSuffix(ms, j);
      }
    } else {
      KeepIsLongest(ms[1..], maxMessages, maxTokens);
      var k := |ms| - |Keep(ms, maxMessages, maxTokens)|;
      assert forall j :: 1 <= j <= |ms| ==> ms[j..] == ms[1..][j - 1..];
      assert ms[0..] == ms;
      forall j | 0 <= j < k
        ensures !Fits(ms[j..], maxMessages, maxTokens)
      {
        if j > 0 {
          assert ms[j..] == ms[1..][j - 1..];
        }
      }
    }
  }

  // ----- trimming after each append equals trimming once

  lemma {:induction false} TokensAppend(ms: seq<Message>, m: Message)
    ensures TotalTokens(ms + [m]) == TotalTokens(ms) + m.tokens
  {
    if ms == [] {
      assert ms + [m] == [m];
    } else {
      assert (ms + [m])[1..] == ms[1..] + [m];
      TokensAppend(ms[1..], m);
    }
  }

  lemma {:induction false} TokensAdd(ms: seq<Message>, ns: seq<Message>)
    ensures TotalTokens([]) == 0
    ensures TotalTokens(ms + ns) == TotalTokens(ms) + TotalTokens(ns)
  {
    if ns == [] {
      assert ms + ns == ms;
    } else {
      var before, m := ns[..|ns| - 1], ns[|ns| - 1];
      TokensAdd(ms, before);
      TokensAppend(ms + before, m);
      TokensAppend(before, m);
      assert ms + ns == ms + before + [m] && before + [m] == ns;
    }
  }

  /**
   What a trim leaves, in numbers: at most maxMessages messages, at most maxTokens tokens unless no more than two are
   left, and one message more would be too many or, if that makes more than two, have too many tokens.
   */
  lemma KeptExactly(ms: seq<Message>, maxMessages: nat, maxTokens: int)
    ensures var kept := Keep(ms, maxMessages, maxTokens);
            && |kept| <= maxMessages && (TotalTokens(kept) <= maxTokens || |kept| <= 2)
            && |kept| <= |ms| && kept == ms[|ms| - |kept|..]
            && (|kept| < |ms| ==>
                  || |kept| + 1 > maxMessages
                  || (|kept| + 1 > 2 && ms[|ms| - |kept| - 1].tokens + TotalTokens(kept) > maxTokens))
  {
    KeepIsLongest(ms, maxMessages, maxTokens);
    var kept := Keep(ms, maxMessages, maxTokens);
    var k := |ms| - |kept|;
    if k > 0 {
      assert !Fits(ms[k - 1..], maxMessages, maxTokens);
      assert ms[k - 1..][1..] == kept;
    }
  }

  /** A list that does not fit does not fit with one more message either. */
  lemma FitsWithoutLast(ms: seq<Message>, m: Message, maxMessages: int, maxTokens: int)
    requires Fits(ms + [m], maxMessages, maxTokens)
    ensures Fits(ms, maxMessages, maxTokens)
  {
    TokensAppend(ms, m);
  }

  lemma {:induction false} TrimOnceMore(ms: seq<Message>, m: Message, maxMessages: int, maxTokens: int)
    ensures Keep(Keep(ms, maxMessages, maxTokens) + [m], maxMessages, maxTokens)
            == Keep(ms + [m], maxMessages, maxTokens)
  {
    if ms != [] && !Fits(ms, maxMessages, maxTokens) {
      TrimOnceMore(ms[1..], m, maxMessages, maxTokens);
      if Fits(ms + [m], maxMessages, maxTokens) {
        FitsWithoutLast(ms, m, maxMessages, maxTokens);
      }
      assert (ms + [m])[1..] == ms[1..] + [m];
    }
  }

  /** Appending the messages of `more` one by one, with a trim after each. */
  function AppendAll(kept: seq<Message>, more: seq<Message>, maxMessages: int, maxTokens: int): seq<Message> {
    if more == [] then kept
    else Keep(AppendAll(kept, more[..|more| - 1], maxMessages, maxTokens) + [more[|more| - 1]], maxMessages, maxTokens)
  }

  /** After any run of appends a session holds exactly the longest suffix of all its messages that fits. */
  lemma {:induction false} IncrementalIsBatch(history: seq<Message>, maxMessages: int, maxTokens: int)
    ensures AppendAll([], history, maxMessages, maxTokens) == Keep(history, maxMessages, maxTokens)
  {
    if history != [] {
      var before, m := history[..|history| - 1], history[|history| - 1];
      IncrementalIsBatch(before, maxMessages, maxTokens);
      TrimOnceMore(before, m, maxMessages, maxTokens);
      assert before + [m] == history;
    }
  }

  // ----- all sessions together

  datatype Contents = Contents(maxMessages: int, maxTokens: int, messages: seq<Message>)

  datatype Op =
    | Create(id: string, maxMessages: int, maxTokens: int)
    | Append(id: string, message: Message)
    | Clear(id: string)
    | Delete(id: string)

  type Sessions = map<string, Contents>

  function Step(s: Sessions, op: Op): Sessions {
    match op
    case Create(id, maxMessages, maxTokens) => s[id := Contents(maxMessages, maxTokens, [])]
    case Append(id, message) =>
      if id !in s then s
      else s[id := s[id].(messages := Keep(s[id].messages + [message], s[id].maxMessages, s[id].maxTokens))]
    case Clear(id) => if id !in s then s else s[id := s[id].(messages := [])]
    case Delete(id) => s - {id}
  }

  function Run(ops: seq<Op>): Sessions {
    if ops == [] then map[] else Step(Run(ops[..|ops| - 1]), ops[|ops| - 1])
  }

  /** The limits of one session and all messages appended to it since it was created or last cleared. */
  function History(ops: seq<Op>, id: string): Option<Contents> {
    if ops == [] then None
    else
      var before, op := History(ops[..|ops| - 1], id), ops[|ops| - 1];
      if op.id != id then before
      else
        match op
        case Create(_, maxMessages, maxTokens) => Some(Contents(maxMessages, maxTokens, []))
        case Append(_, m) =>
          if before.None? then None else Some(before.value.(messages := before.value.messages + [m]))
        case Clear(_) => if before.None? then None else Some(before.value.(messages := []))
        case Delete(_) => None
  }

  /** A session holds the longest suffix of its own history that fits, whatever happens to other sessions. */
  lemma {:induction false} RunKeepsHistory(ops: seq<Op>, id: string)
    ensures id in Run(ops) <==> History(ops, id).Some?
    ensures id in Run(ops) ==>
              var h := History(ops, id).value;
              Run(ops)[id] == h.(messages := Keep(h.messages, h.maxMessages, h.maxTokens))
  {
    if ops != [] {
      var op := ops[|ops| - 1];
      RunKeepsHistory(ops[..|ops| - 1], id);
      if op.Append? && op.id == id && id in Run(ops[..|ops| - 1]) {
        var h := History(ops[..|ops| - 1], id).value;
        TrimOnceMore(h.messages, op.message, h.maxMessages, h.maxTokens);
      }
    }
  }

  // ----- the program's objects

  method SumTokens(ms: seq<Message>) returns (total: nat)
    ensures total == TotalTokens(ms)
  {
    total := 0;
    for i := 0 to |ms|
      invariant total + TotalTokens(ms[i..]) == TotalTokens(ms)
    {
      assert ms[i..][1..] == ms[i + 1..];
      total := total + ms[i].tokens;
    }
  }

  class SessionObject {
    const maxMessages: int
    const maxTokens: int
    var messages: seq<Message>
    var updatedAt: int

    constructor (maxMessages: int, maxTokens: int, now: int)
      ensures this.maxMessages == maxMessages && this.maxTokens == maxTokens && messages == [] && updatedAt == now
    {
      this.maxMessages, this.maxTokens := maxMessages, maxTokens;
      messages, updatedAt := [], now;
    }

    /** The two loops; the first pops from an empty list, and so raises, exactly when the limit is negative. */
    method Trim() returns (raised: bool)
      modifies this`messages
      ensures raised <==> maxMessages < 0
      ensures messages == Keep(old(messages), maxMessages, maxTokens)
    {
      while |messages| > maxMessages
        invariant Keep(messages, maxMessages, maxTokens) == Keep(old(messages), maxMessages, maxTokens)
        decreases |messages|
      {
        if messages == [] {
          return true;
        }
        messages := messages[1..];
      }
      var total := SumTokens(messages);
      while total > maxTokens && |messages| > 2
        invariant total == TotalTokens(messages) && |messages| <= maxMessages
        invariant Keep(messages, maxMessages, maxTokens) == Keep(old(messages), maxMessages, maxTokens)
        decreases |messages|
      {
        var removed := messages[0];
        messages := messages[1..];
        total := total - removed.tokens;
      }
      return false;
    }
  }

  class SessionManager {
    var sessions: map<string, SessionObject>

    ghost predicate Valid()
      reads this
    {
      forall a, b :: a in sessions && b in sessions && sessions[a] == sessions[b] ==> a == b
    }

    ghost function View(): Sessions
      reads this, sessions.Values
    {
      map id | id in sessions :: Contents(sessions[id].maxMessages, sessions[id].maxTokens, sessions[id].messages)
    }

    constructor ()
      ensures Valid() && View() == map[]
    {
      sessions := map[];
    }

    /** The id is a digest of the title and the time; it is a parameter here. */
    method CreateSession(id: string, maxMessages: int, maxTokens: int, now: int)
      requires Valid()
      modifies this
      ensures Valid() && View() == Step(old(View()), Create(id, maxMessages, maxTokens))
    {
      var s := new SessionObject(maxMessages, maxTokens, now);
      sessions := sessions[id := s];
    }

    method AppendMessage(id: string, role: string, content: string, now: int) returns (raised: bool)
      requires Valid()
      modifies sessions.Values
      ensures Valid()
      ensures View() == Step(old(View()), Append(id, Message(role, content, now, EstimateTokens(content))))
      ensures raised <==> id in sessions && sessions[id].maxMessages < 0
    {
      if id !in sessions {
        return false;
      }
      var s := sessions[id];
      s.messages := s.messages + [Message(role, content, now, EstimateTokens(content))];
      s.updatedAt := now;
      raised := s.Trim();
    }

    method ClearSession(id: string)
      requires Valid()
      modifies sessions.Values
      ensures Valid() && View() == Step(old(View()), Clear(id))
    {
      if id in sessions {
        sessions[id].messages := [];
      }
    }

    method DeleteSession(id: string)
      requires Valid()
      modifies this
      ensures Valid() && View() == Step(old(View()), Delete(id))
    {
      sessions := sessions - {id};
    }
  }
}
