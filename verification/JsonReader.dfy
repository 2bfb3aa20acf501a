/** The JSON string reader on every text, and the bytes of the escapes that the writer makes. */
module JsonReader {
  import opened Common
  import opened JsonText

  /** One character of a JSON string as it is written: itself, or anything behind a backslash. */
  datatype Token = Plain(c: char) | Escaped(c: char)

  predicate ValidToken(t: Token) {
    t.Plain? ==> t.c != '"' && t.c != '\\'
  }

  predicate ValidTokens(ts: seq<Token>) {
    forall i :: 0 <= i < |ts| ==> ValidToken(ts[i])
  }

  function Bytes(t: Token): string {
    match t
    case Plain(c) => [c]
    case Escaped(c) => ['\\', c]
  }

  function AllBytes(ts: seq<Token>): string {
    if ts == [] then "" else Bytes(ts[0]) + AllBytes(ts[1..])
  }

  /** A line feed, a carriage return and a tab for n, r and t behind a backslash; every other character is itself. */
  function Meaning(t: Token): char {
    if t == Escaped('n') then 10 as char
    else if t == Escaped('r') then 13 as char
    else if t == Escaped('t') then 9 as char
    else t.c
  }

  function Meanings(ts: seq<Token>): (s: string)
    ensures |s| == |ts| && forall i :: 0 <= i < |ts| ==> s[i] == Meaning(ts[i])
  {
    seq(|ts|, i requires 0 <= i < |ts| => Meaning(ts[i]))
  }

  /** What can stand behind the tokens: nothing, a quote, or a backslash that is the last character. */
  predicate IsRest(rest: string) {
    rest == "" || rest[0] == '"' || rest == ['\\']
  }

  lemma TokenRead(t: Token, more: string, left: int)
    requires ValidToken(t) && left > 1
    ensures Parse(Bytes(t) + more, left) == Prepend(Meaning(t), Parse(more, left - 1))
  {
    var s := Bytes(t) + more;
    if t.Plain? {
      assert s[1..] == more;
    } else {
      assert s[2..] == more && s[1] == t.c;
    }
  }

  /** What the reader should give for some tokens and a rest, with room for so many characters. */
  function Reading(ts: seq<Token>, rest: string, room: nat): Option<string> {
    if |ts| >= room then Some(Meanings(ts[..room]))
    else if rest == ['\\'] then None else Some(Meanings(ts))
  }

  lemma ReadingNext(ts: seq<Token>, rest: string, room: nat)
    requires ts != [] && room > 0
    ensures Reading(ts, rest, room) == Prepend(Meaning(ts[0]), Reading(ts[1..], rest, room - 1))
  {
    assert Meanings(ts) == [Meaning(ts[0])] + Meanings(ts[1..]);
    if |ts| >= room {
      assert ts[..room][1..] == ts[1..][..room - 1];
      assert Meanings(ts[..room]) == [Meaning(ts[0])] + Meanings(ts[1..][..room - 1]);
    }
  }

  lemma RestRead(rest: string, left: int)
    requires IsRest(rest)
    ensures Parse(rest, left) == Reading([], rest, if left > 1 then left - 1 else 0)
  {
    assert Meanings([]) == "" && Meanings([][..0]) == "";
  }

  lemma NoRoom(s: string, left: int)
    requires left <= 1
    ensures Parse(s, left) == Some("")
  {
  }

  /**
   The reader on any tokens with any rest: as many of them are read as the buffer has places before its NUL, and all
   if they are fewer; it goes past the text exactly if it gets as far as a single backslash at the end.
   */
  lemma {:induction false} ReadExactly(ts: seq<Token>, rest: string, left: int)
    requires ValidTokens(ts) && IsRest(rest)
    ensures Parse(AllBytes(ts) + rest, left) == Reading(ts, rest, if left > 1 then left - 1 else 0)
    decreases |ts|
  {
    if ts == [] {
      RestRead(rest, left);
      assert AllBytes(ts) + rest == rest;
    } else if left <= 1 {
      NoRoom(AllBytes(ts) + rest, left);
      assert Meanings(ts[..0]) == "";
    } else {
      var more := AllBytes(ts[1..]) + rest;
      assert AllBytes(ts) + rest == Bytes(ts[0]) + more;
      TokenRead(ts[0], more, left);
      ReadExactly(ts[1..], rest, left - 1);
      ReadingNext(ts, rest, left - 1);
    }
  }

  lemma FirstToken(s: string) returns (t: Token, tail: string)
    requires !IsRest(s)
    ensures ValidToken(t) && s == Bytes(t) + tail && |tail| < |s|
  {
    t := if s[0] == '\\' then Escaped(s[1]) else Plain(s[0]);
    tail := s[|Bytes(t)|..];
  }

  lemma TokenInFront(t: Token, ts: seq<Token>, rest: string)
    requires ValidToken(t) && ValidTokens(ts)
    ensures ValidTokens([t] + ts) && AllBytes([t] + ts) + rest == Bytes(t) + (AllBytes(ts) + rest)
  {
    assert ([t] + ts)[1..] == ts;
  }

  /** Every text is some tokens and such a rest. */
  lemma {:induction false} EveryText(s: string) returns (ts: seq<Token>, rest: string)
    ensures ValidTokens(ts) && IsRest(rest) && s == AllBytes(ts) + rest
    decreases |s|
  {
    ts, rest := [], s;
    assert AllBytes([]) + s == s;
    if !IsRest(s) {
      var t, tail := FirstToken(s);
      ts, rest := EveryText(tail);
      TokenInFront(t, ts, rest);
      ts := [t] + ts;
    }
  }

  // ----- what the writer writes

  /** The escape of every byte: two characters for five of them, itself if printable, else six with its hex digits. */
  lemma EscapeExactly(c: char)
    requires c as int < 256
    ensures EscapeChar(c)
            == if c == '"' then "\\\"" else if c == '\\' then "\\\\"
               else if c as int == 10 then "\\n" else if c as int == 13 then "\\r" else if c as int == 9 then "\\t"
               else if 32 <= c as int < 127 then [c]
               else "\\u00" + ["0123456789abcdef"[c as int / 16], "0123456789abcdef"[c as int % 16]]
  {
  }

  /** Of an escape no longer than the place left, all is stored but what would leave no place for the NUL. */
  lemma StoredExactly(t: string, left: nat)
    requires |t| <= left && left > 0
    ensures Stored(t, left) == if |t| < left then t else t[..left - 1]
  {
  }
}
