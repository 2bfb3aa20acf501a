/**
 Writing JSON string contents in the gateway (json_escape) and reading JSON strings in the message
 handler (json_parse_string), both over NUL-terminated text in buffers of limited size. The escapes are
 those of section 7 of RFC 8259.
 */
module JsonText {
  import opened Common

  const QUOTE := '"'
  const BACKSLASH := '\\'

  /** Text of bytes other than NUL, as between two NULs in memory. */
  predicate IsText(s: string) {
    forall i :: 0 <= i < |s| ==> 0 < s[i] as int < 256
  }

  /** The characters both functions agree on: printable ASCII, newline, carriage return and tab. */
  predicate IsPlain(c: char) {
    ' ' <= c <= '~' || c == '\n' || c == '\r' || c == '\t'
  }

  predicate AllPlain(s: string) {
    forall i :: 0 <= i < |s| ==> IsPlain(s[i])
  }

  // ----- escaping

  function HexDigit(d: nat): char
    requires d < 16
  {
    if d < 10 then (48 + d) as char else (87 + d) as char
  }

  /** Two digits for a byte. */
  function HexByte(c: char): (r: string)
    ensures |r| == 2
  {
    [HexDigit(c as int / 16 % 16), HexDigit(c as int % 16)]
  }

  function EscapeChar(c: char): (r: string)
    ensures 1 <= |r| <= 6 && (IsPlain(c) ==> |r| <= 2)
    ensures |r| > 2 ==> |r| == 6
  {
    if c == QUOTE then [BACKSLASH, QUOTE]
    else if c == BACKSLASH then [BACKSLASH, BACKSLASH]
    else if c == '\n' then [BACKSLASH, 'n']
    else if c == '\r' then [BACKSLASH, 'r']
    else if c == '\t' then [BACKSLASH, 't']
    else if ' ' <= c <= '~' then [c]
    else [BACKSLASH, 'u', '0', '0'] + HexByte(c)
  }

  /** The escape of a whole text. */
  function Escape(s: string): string {
    if s == "" then "" else EscapeChar(s[0]) + Escape(s[1..])
  }

  lemma Regroup(a: string, b: string, c: string)
    ensures a + (b + c) == (a + b) + c
  {
  }

  lemma {:induction false} EscapeAppend(s: string, c: char)
    ensures Escape(s + [c]) == Escape(s) + EscapeChar(c)
  {
    var t := s + [c];
    if s == "" {
      assert t[1..] == "" && EscapeChar(c) + "" == EscapeChar(c);
    } else {
      EscapeAppend(s[1..], c);
      assert t[0] == s[0] && t[1..] == s[1..] + [c];
      Regroup(EscapeChar(s[0]), Escape(s[1..]), EscapeChar(c));
    }
  }

  /** How many characters are escaped when `left` bytes are left: while more than four are. */
  function Fitting(s: string, left: int): (k: nat)
    requires IsText(s)
    ensures k <= |s|
  {
    if s == "" || left <= 4 then 0 else 1 + Fitting(s[1..], left - |EscapeChar(s[0])|)
  }

  /** The writer stays in its buffer: with five bytes left it starts no escape of six, and so never passes the end. */
  predicate InBounds(s: string, left: int)
    requires IsText(s)
  {
    s != "" && left > 4 ==> left >= |EscapeChar(s[0])| && InBounds(s[1..], left - |EscapeChar(s[0])|)
  }

  /** Every escape it starts also has room for a NUL; with six bytes left snprintf cuts an escape of six. */
  predicate Whole(s: string, left: int)
    requires IsText(s)
  {
    s != "" && left > 4 ==> left > |EscapeChar(s[0])| && Whole(s[1..], left - |EscapeChar(s[0])|)
  }

  /** What `left` bytes and a NUL hold of the escapes t that were started: all, or all but the last character. */
  function Stored(t: string, left: int): (r: string)
    ensures r <= t
  {
    if t != "" && |t| == left then t[..|t| - 1] else t
  }

  lemma EscapeTail(s: string, i: nat)
    requires 0 < i <= |s|
    ensures Escape(s[..i]) == EscapeChar(s[0]) + Escape(s[1..][..i - 1])
  {
    assert s[..i][0] == s[0] && s[..i][1..] == s[1..][..i - 1];
  }

  /** What the byte count at the escape of each character must not be. */
  ghost predicate NeverLeft(s: string, left: int, bad: int) {
    forall i :: 0 <= i < |s| && !IsPlain(s[i]) ==> left - |Escape(s[..i])| != bad
  }

  lemma NeverLeftStep(s: string, left: int, bad: int)
    requires s != ""
    ensures NeverLeft(s, left, bad)
            <==> (IsPlain(s[0]) || left != bad) && NeverLeft(s[1..], left - |EscapeChar(s[0])|, bad)
  {
    var rest, remaining := s[1..], left - |EscapeChar(s[0])|;
    forall i | 0 < i < |s|
      ensures left - |Escape(s[..i])| == remaining - |Escape(rest[..i - 1])| && s[i] == rest[i - 1]
    {
      EscapeTail(s, i);
    }
    assert |Escape(s[..0])| == 0;
    if NeverLeft(s, left, bad) {
      forall j | 0 <= j < |rest| && !IsPlain(rest[j])
        ensures remaining - |Escape(rest[..j])| != bad
      {
        assert rest[j] == s[j + 1];
        assert left - |Escape(s[..j + 1])| == remaining - |Escape(rest[..j + 1 - 1])|;
      }
    }
  }

  lemma NothingLeft(s: string, left: int, bad: int)
    requires left < bad
    ensures NeverLeft(s, left, bad)
  {
  }

  /** The writer stays in its buffer exactly if no character but a plain one comes up with five bytes left. */
  lemma {:induction false} InBoundsExactly(s: string, left: int)
    requires IsText(s)
    ensures InBounds(s, left) <==> NeverLeft(s, left, 5)
  {
    if left <= 4 {
      NothingLeft(s, left, 5);
    } else if s != "" {
      NeverLeftStep(s, left, 5);
      InBoundsExactly(s[1..], left - |EscapeChar(s[0])|);
    }
  }

  /** It stays in its buffer and leaves no split escape exactly if none comes up with five or with six bytes left. */
  lemma {:induction false} WholeExactly(s: string, left: int)
    requires IsText(s)
    ensures Whole(s, left) <==> NeverLeft(s, left, 5) && NeverLeft(s, left, 6)
  {
    if left <= 4 {
      NothingLeft(s, left, 5);
      NothingLeft(s, left, 6);
    } else if s != "" {
      NeverLeftStep(s, left, 5);
      NeverLeftStep(s, left, 6);
      WholeExactly(s[1..], left - |EscapeChar(s[0])|);
    }
  }

  /** Whole escapes are in bounds, and they are stored in full. */
  lemma {:induction false} WholeIsStored(s: string, left: int)
    requires IsText(s) && Whole(s, left)
    ensures InBounds(s, left)
    ensures var t := Escape(s[..Fitting(s, left)]); (t == "" || |t| < left) && Stored(t, left) == t
  {
    assert s[..0] == "";
    if s != "" && left > 4 {
      WholeIsStored(s[1..], left - |EscapeChar(s[0])|);
      EscapeTail(s, Fitting(s, left));
    }
  }

  const LETTER := 'a'

  function Letters(n: nat): (s: string)
    ensures |s| == n && IsText(s) && AllPlain(s)
  {
    seq(n, _ => LETTER)
  }

  lemma {:induction false} LettersEscape(n: nat)
    ensures Escape(Letters(n)) == Letters(n)
  {
    if n > 0 {
      LettersEscape(n - 1);
      assert Letters(n)[1..] == Letters(n - 1);
      assert Letters(n) == [LETTER] + Letters(n - 1);
    }
  }

  lemma OneAfterLetters(k: nat, c: char, left: nat, bad: nat)
    ensures NeverLeft(Letters(k) + [c], left, bad) <==> IsPlain(c) || left - k != bad
  {
    var s := Letters(k) + [c];
    LettersEscape(k);
    assert s[..k] == Letters(k) && s[k] == c;
    assert forall i :: 0 <= i < |s| && !IsPlain(s[i]) ==> i == k;
  }

  /**
   Inputs that fail: for a byte outside ASCII, whatever the size of the buffer, enough letters in front make the
   writer pass its end, and with one letter fewer it stays inside and leaves a split escape.
   */
  lemma EveryBufferFails(c: char, left: nat)
    requires !IsPlain(c) && IsText([c]) && left >= 6
    ensures !InBounds(Letters(left - 5) + [c], left)
    ensures InBounds(Letters(left - 6) + [c], left) && !Whole(Letters(left - 6) + [c], left)
  {
    OneAfterLetters(left - 5, c, left, 5);
    InBoundsExactly(Letters(left - 5) + [c], left);
    OneAfterLetters(left - 6, c, left, 5);
    InBoundsExactly(Letters(left - 6) + [c], left);
    OneAfterLetters(left - 6, c, left, 6);
    WholeExactly(Letters(left - 6) + [c], left);
  }

  lemma {:induction false} PlainIsWhole(s: string, left: int)
    requires IsText(s) && AllPlain(s)
    ensures Whole(s, left)
  {
    if s != "" {
      PlainIsWhole(s[1..], left - |EscapeChar(s[0])|);
    }
  }

  lemma {:induction false} RoomIsWhole(s: string, left: int)
    requires IsText(s) && left > 6 * |s|
    ensures Whole(s, left) && Fitting(s, left) == |s|
  {
    if s != "" {
      RoomIsWhole(s[1..], left - |EscapeChar(s[0])|);
    }
  }

  /** After i characters, with escapes t started so far: going on from there leads to the same end. */
  ghost predicate Progress(s: string, size: nat, i: nat, t: string)
    requires IsText(s)
  {
    && i <= |s| && t == Escape(s[..i])
    && InBounds(s[i..], size - |t|)
    && i + Fitting(s[i..], size - |t|) == Fitting(s, size)
  }

  lemma ProgressStep(s: string, size: nat, i: nat, t: string)
    requires IsText(s) && Progress(s, size, i, t) && i < |s| && size - |t| > 4
    ensures |t + EscapeChar(s[i])| <= size && Progress(s, size, i + 1, t + EscapeChar(s[i]))
  {
    assert s[..i + 1] == s[..i] + [s[i]] && s[i..][1..] == s[i + 1..];
    EscapeAppend(s[..i], s[i]);
  }

  lemma ProgressEnds(s: string, size: nat, i: nat, t: string)
    requires IsText(s) && Progress(s, size, i, t) && (i == |s| || size - |t| <= 4)
    ensures t == Escape(s[..Fitting(s, size)])
  {
  }

  lemma StoredWhole(s: string, size: nat)
    requires IsText(s) && NeverLeft(s, size, 5) && NeverLeft(s, size, 6)
    ensures var t := Escape(s[..Fitting(s, size)]); Stored(t, size) == t
  {
    WholeExactly(s, size);
    WholeIsStored(s, size);
  }

  /** strcpy or snprintf of one escape: as many characters as leave room for a NUL in `left` bytes, and the NUL. */
  method Emit(t: string, out: array<char>, op: nat, left: nat)
    requires left > 0 && op + left < out.Length
    modifies out
    ensures var k := Min(|t|, left - 1); out[..op + k] == old(out[..op]) + t[..k] && out[op + k] == '\0'
  {
    var n := Min(|t|, left - 1);
    for i := 0 to n
      invariant out[..op + i] == old(out[..op]) + t[..i]
    {
      out[op + i] := t[i];
    }
    out[op + n] := '\0';
  }

  /** The buffer holds the escapes t, the last perhaps cut, with a NUL in place of what was cut. */
  ghost predicate Holds(out: array<char>, t: string)
    reads out
  {
    var r := Stored(t, out.Length - 1);
    |t| < out.Length && out[..|r|] == r && (|r| < |t| ==> out[|r|] == '\0')
  }

  method EscapeOne(c: char, out: array<char>, op: nat, left: nat, ghost t: string) returns (width: nat)
    requires op == |t| && op + left == out.Length - 1 && 4 < left && |EscapeChar(c)| <= left && Holds(out, t)
    modifies out
    ensures width == |EscapeChar(c)| && Holds(out, t + EscapeChar(c))
  {
    var e := EscapeChar(c);
    Emit(e, out, op, left);
    return |e|;
  }

  /** One turn of the escaping loop, from position op with the escapes t to position end with one more. */
  method EscapeNext(s: string, i: nat, out: array<char>, op: nat, left: nat, ghost t: string)
    returns (end: nat, remaining: nat)
    requires IsText(s) && op == |t| && op + left == out.Length - 1 && i < |s| && 4 < left
    requires Progress(s, out.Length - 1, i, t) && Holds(out, t)
    modifies out
    ensures end == |t + EscapeChar(s[i])| && end + remaining == out.Length - 1
    ensures Progress(s, out.Length - 1, i + 1, t + EscapeChar(s[i])) && Holds(out, t + EscapeChar(s[i]))
  {
    ProgressStep(s, out.Length - 1, i, t);
    var width := EscapeOne(s[i], out, op, left, t);
    end, remaining := op + width, left - width;
  }

  /** The loop: op is where the escapes of all characters that were started end. */
  method EscapeLoop(s: string, out: array<char>) returns (op: nat, left: nat)
    requires IsText(s) && out.Length > 0 && NeverLeft(s, out.Length - 1, 5)
    modifies out
    ensures var t := Escape(s[..Fitting(s, out.Length - 1)]);
            op == |t| && op + left == out.Length - 1 && Holds(out, t)
  {
    ghost var size, t := out.Length - 1, "";
    op, left := 0, out.Length - 1;
    var i := 0;
    assert s[..0] == "" && s[0..] == s && out[..0] == "";
    InBoundsExactly(s, size);
    while i < |s| && left > 4
      invariant op + left == size && op == |t| && left >= 0 && Progress(s, size, i, t) && Holds(out, t)
      decreases |s| - i
    {
      op, left := EscapeNext(s, i, out, op, left, t);
      t, i := t + EscapeChar(s[i]), i + 1;
    }
    ProgressEnds(s, size, i, t);
  }

  /**
   The buffer ends up with the escape of as many leading characters as were started, and a NUL, the last escape
   perhaps cut by one character. n is the length of the text in it.
   */
  method JsonEscape(s: string, out: array<char>) returns (n: nat)
    requires IsText(s) && out.Length > 0 && NeverLeft(s, out.Length - 1, 5)
    modifies out
    ensures n < out.Length && out[n] == '\0'
    ensures out[..n] == Stored(Escape(s[..Fitting(s, out.Length - 1)]), out.Length - 1)
    ensures NeverLeft(s, out.Length - 1, 6) ==> out[..n] == Escape(s[..Fitting(s, out.Length - 1)])
  {
    var op, left := EscapeLoop(s, out);
    out[op] := '\0';
    n := if op > 0 && left == 0 then op - 1 else op;
    if NeverLeft(s, out.Length - 1, 6) {
      StoredWhole(s, out.Length - 1);
    }
  }

  lemma {:induction false} EscapePrefix(s: string, j: nat, k: nat)
    requires IsText(s) && j <= k <= |s|
    ensures |Escape(s[..j])| <= |Escape(s[..k])|
    decreases k - j
  {
    if j < k {
      EscapePrefix(s, j, k - 1);
      assert s[..k] == s[..k - 1] + [s[k - 1]];
      EscapeAppend(s[..k - 1], s[k - 1]);
    }
  }

  /**
   How much fits, without the loop: the number is the least k for which the escape of the first k
   characters leaves at most four bytes, or all characters if there is none.
   */
  lemma {:induction false} FittingExactly(s: string, left: int, k: nat)
    requires IsText(s) && k <= |s|
    ensures k < Fitting(s, left) <==> k < |s| && left - |Escape(s[..k])| > 4
    decreases k
  {
    if s == "" {
    } else if k == 0 {
      assert s[..0] == "";
    } else {
      var t := EscapeChar(s[0]);
      assert s[..k][0] == s[0] && s[..k][1..] == s[1..][..k - 1];
      FittingExactly(s[1..], left - |t|, k - 1);
      assert |Escape(s[..k])| >= |t|;
    }
  }

  // ----- parsing; what follows the opening quote, up to the NUL that ends the text

  function UnescapeChar(c: char): char {
    match c
    case 'n' => '\n'
    case 'r' => '\r'
    case 't' => '\t'
    case _ => c
  }

  function Prepend(c: char, t: Option<string>): (r: Option<string>)
    ensures r.Some? <==> t.Some?
    ensures r.Some? ==> r.value == [c] + t.value
  {
    if t.None? then None else Some([c] + t.value)
  }

  /** None when a backslash is read with the NUL behind it: the program then goes on past the NUL. */
  function Parse(s: string, left: int): (r: Option<string>)
    ensures r.Some? ==> |r.value| <= |s|
  {
    if s == "" || s[0] == QUOTE || left <= 1 then Some("")
    else if s[0] != BACKSLASH then Prepend(s[0], Parse(s[1..], left - 1))
    else if |s| == 1 then None
    else Prepend(UnescapeChar(s[1]), Parse(s[2..], left - 1))
  }

  // ----- when the reader goes past its text

  /** The number of backslashes directly before position i. */
  function Backslashes(s: string, i: nat): (n: nat)
    requires i <= |s|
    ensures n <= i
  {
    if i == 0 || s[i - 1] != BACKSLASH then 0 else 1 + Backslashes(s, i - 1)
  }

  /** A backslash that escapes what follows it: an even number of others stands before it. */
  predicate Escapes(s: string, i: nat)
    requires i < |s|
  {
    s[i] == BACKSLASH && Backslashes(s, i) % 2 == 0
  }

  /** The number of such backslashes before position i; i less this many characters have been read by then. */
  function EscapesBefore(s: string, i: nat): (n: nat)
    requires i <= |s|
    ensures n <= i
  {
    if i == 0 then 0 else EscapesBefore(s, i - 1) + if Escapes(s, i - 1) then 1 else 0
  }

  /** Every quote is escaped, so that none ends the string. */
  ghost predicate NoEnd(s: string) {
    forall i :: 0 <= i < |s| && s[i] == QUOTE ==> Backslashes(s, i) % 2 == 1
  }

  /** The last character escapes what is not there, and no quote and no full buffer stops the reader before it. */
  ghost predicate GoesPast(s: string, left: int) {
    s != "" && Escapes(s, |s| - 1) && NoEnd(s) && left - (|s| - 1 - EscapesBefore(s, |s| - 1)) > 1
  }

  /** How many characters of text the first character read takes. */
  function Width(s: string): nat
    requires s != ""
  {
    if s[0] == BACKSLASH then 2 else 1
  }

  lemma {:induction false} BackslashesBehind(s: string, i: nat)
    requires s != "" && Width(s) <= |s| && i <= |s| - Width(s)
    ensures Backslashes(s, i + Width(s)) % 2 == Backslashes(s[Width(s)..], i) % 2
  {
    if i > 0 {
      BackslashesBehind(s, i - 1);
    }
  }

  lemma {:induction false} EscapesBehind(s: string, i: nat)
    requires s != "" && Width(s) <= |s| && i <= |s| - Width(s)
    ensures EscapesBefore(s, i + Width(s)) == EscapesBefore(s[Width(s)..], i) + Width(s) - 1
  {
    if i == 0 {
      assert Backslashes(s, 0) == 0 && (Width(s) == 2 ==> Backslashes(s, 1) == 1);
    } else {
      EscapesBehind(s, i - 1);
      BackslashesBehind(s, i - 1);
    }
  }

  lemma NoEndBehind(s: string)
    requires s != "" && Width(s) <= |s|
    ensures NoEnd(s) <==> s[0] != QUOTE && NoEnd(s[Width(s)..])
  {
    var k, rest := Width(s), s[Width(s)..];
    forall i: nat | i < |rest|
      ensures s[i + k] == rest[i] && Backslashes(s, i + k) % 2 == Backslashes(rest, i) % 2
    {
      BackslashesBehind(s, i);
    }
    assert Backslashes(s, 0) == 0 && (k == 2 ==> Backslashes(s, 1) == 1);
    if s[0] != QUOTE && NoEnd(rest) {
      forall i | 0 <= i < |s| && s[i] == QUOTE
        ensures Backslashes(s, i) % 2 == 1
      {
        if i >= k {
          assert rest[i - k] == s[i - k + k];
        }
      }
    }
    if NoEnd(s) {
      forall i: nat | i < |rest| && rest[i] == QUOTE
        ensures Backslashes(rest, i) % 2 == 1
      {
        assert s[i + k] == QUOTE;
      }
    }
  }

  /** What the first character read leaves behind goes past the text if and only if the whole does. */
  lemma GoesPastBehind(s: string, left: int)
    requires s != "" && s[0] != QUOTE && left > 1 && Width(s) <= |s|
    ensures GoesPast(s, left) <==> GoesPast(s[Width(s)..], left - 1)
  {
    var rest := s[Width(s)..];
    assert Backslashes(s, 0) == 0 && (Width(s) == 2 ==> Backslashes(s, 1) == 1);
    NoEndBehind(s);
    if rest != "" {
      BackslashesBehind(s, |rest| - 1);
      EscapesBehind(s, |rest| - 1);
    }
  }

  /** The reader goes past its text exactly when the text is of this kind, whatever the size of the buffer. */
  lemma {:induction false} GoesPastExactly(s: string, left: int)
    ensures Parse(s, left).None? <==> GoesPast(s, left)
    decreases |s|
  {
    if s == "" || left <= 1 {
    } else if s[0] == QUOTE || Width(s) > |s| {
      assert Backslashes(s, 0) == 0;
    } else {
      GoesPastBehind(s, left);
      GoesPastExactly(s[Width(s)..], left - 1);
    }
  }

  lemma {:induction false} NoBackslashes(s: string, i: nat)
    requires i <= |s| && forall j :: 0 <= j < i ==> s[j] != BACKSLASH
    ensures Backslashes(s, i) == 0 && EscapesBefore(s, i) == 0
  {
    if i > 0 {
      NoBackslashes(s, i - 1);
    }
  }

  /**
   Inputs that fail: any number of letters and a backslash, in a buffer with room for two more. A quote before the
   backslash, or a second backslash, keeps the reader inside.
   */
  lemma TrailingBackslashFails(n: nat, left: int)
    requires left > n + 1
    ensures Parse(Letters(n) + [BACKSLASH], left).None?
    ensures Parse([QUOTE] + [BACKSLASH], left).Some? && Parse([BACKSLASH] + [BACKSLASH], left).Some?
  {
    var s := Letters(n) + [BACKSLASH];
    NoBackslashes(s, n);
    assert NoEnd(s);
    GoesPastExactly(s, left);
    assert ([BACKSLASH] + [BACKSLASH])[2..] == "";
  }

  /** What is in the buffer already, with what parsing the rest will add. */
  function After(done: string, rest: Option<string>): Option<string> {
    if rest.None? then None else Some(done + rest.value)
  }

  lemma AfterOne(done: string, c: char, rest: Option<string>)
    ensures After(done + [c], rest) == After(done, Prepend(c, rest))
    ensures After(done, Some("")) == Some(done)
  {
    if rest.Some? {
      assert done + [c] + rest.value == done + ([c] + rest.value);
    }
    assert done + "" == done;
  }

  /** One turn of the parsing loop: the character read at i, and how many bytes of text it took. */
  method ParseOne(s: string, i: nat, ghost left: int) returns (c: char, width: nat)
    requires i < |s| && s[i] != QUOTE && left > 1 && Parse(s[i..], left).Some?
    ensures 1 <= width <= 2 && i + width <= |s|
    ensures Parse(s[i..], left) == Prepend(c, Parse(s[i + width..], left - 1))
  {
    if s[i] == BACKSLASH {
      assert s[i..][1] == s[i + 1] && s[i..][2..] == s[i + 2..];
      return UnescapeChar(s[i + 1]), 2;
    }
    assert s[i..][1..] == s[i + 1..];
    return s[i], 1;
  }

  /** False when the text does not start with a quote, else the buffer holds the string and a NUL. */
  method JsonParseString(s: string, out: array<char>) returns (ok: bool, n: nat)
    requires out.Length > 0 && (s != "" && s[0] == QUOTE ==> !GoesPast(s[1..], out.Length - 1))
    modifies out
    ensures ok <==> s != "" && s[0] == QUOTE
    ensures ok ==> n < out.Length && out[n] == '\0' && Some(out[..n]) == Parse(s[1..], out.Length - 1)
    ensures !ok ==> out[..] == old(out[..])
  {
    ok, n := false, 0;
    if s == "" || s[0] != QUOTE {
      return;
    }
    GoesPastExactly(s[1..], out.Length - 1);
    ghost var goal := Parse(s[1..], out.Length - 1);
    var i, left := 1, out.Length - 1;
    assert out[..0] == "" && goal == After("", goal) by {
      assert "" + goal.value == goal.value;
    }
    while i < |s| && s[i] != QUOTE && left > 1
      invariant 1 <= i <= |s| && left >= 0 && n + left == out.Length - 1
      invariant Parse(s[i..], left).Some? && After(out[..n], Parse(s[i..], left)) == goal
      decreases |s| - i
    {
      var c, width := ParseOne(s, i, left);
      AfterOne(out[..n], c, Parse(s[i + width..], left - 1));
      ghost var done := out[..n];
      out[n] := c;
      assert out[..n + 1] == done + [c];
      n, left, i := n + 1, left - 1, i + width;
    }
    AfterOne(out[..n], ' ', None);
    out[n] := '\0';
    ok := true;
  }

  // ----- main results

  /** How the parser reads the escape of one character: as the character, or as the letter u and four digits. */
  function Reread(c: char): string {
    if IsPlain(c) then [c] else "u00" + HexByte(c)
  }

  function RereadAll(s: string): string {
    if s == "" then "" else Reread(s[0]) + RereadAll(s[1..])
  }

  lemma ParsePlainEscape(c: char, rest: string, left: int)
    requires IsPlain(c) && left > 1
    ensures Parse(EscapeChar(c) + rest, left) == Prepend(c, Parse(rest, left - 1))
  {
    var t := EscapeChar(c) + rest;
    if |EscapeChar(c)| == 2 {
      assert t[2..] == rest;
    } else {
      assert t[1..] == rest;
    }
  }

  /**
   For plain text, parsing the escape gives back its leading characters: all that fit the buffer, which
   keeps two bytes free. Whatever follows the closing quote does not matter.
   */
  lemma {:induction false} ParseEscaped(s: string, rest: string, left: nat)
    requires IsText(s) && AllPlain(s) && left > 0
    ensures Parse(Escape(s) + [QUOTE] + rest, left) == Some(s[..Min(|s|, left - 1)])
    decreases |s|
  {
    if s == "" || left == 1 {
      assert Escape("") + [QUOTE] + rest == [QUOTE] + rest;
      assert s[..Min(|s|, left - 1)] == "";
    } else {
      var tail := Escape(s[1..]) + [QUOTE] + rest;
      assert Escape(s) + [QUOTE] + rest == EscapeChar(s[0]) + tail;
      ParsePlainEscape(s[0], tail, left);
      ParseEscaped(s[1..], rest, left - 1);
      assert [s[0]] + s[1..][..Min(|s[1..]|, left - 2)] == s[..Min(|s|, left - 1)];
    }
  }

  /**
   The round trip through both buffers, of n and m bytes: quoting what json_escape leaves and parsing it
   gives a prefix of the text, cut only where one of the buffers is full. It is the whole text exactly if the
   first buffer has more than four bytes left before the last character and the second two more than the text.
   */
  lemma RoundTrip(s: string, n: nat, m: nat)
    requires IsText(s) && AllPlain(s) && n > 0 && m > 0
    ensures var kept := s[..Fitting(s, n - 1)];
            var back := Parse(Escape(kept) + [QUOTE], m - 1);
            && back == Some(kept[..Min(|kept|, if m == 1 then 0 else m - 2)])
            && (back == Some(s) <==> s == "" || (n - 1 - |Escape(s[..|s| - 1])| > 4 && m - 2 >= |s|))
  {
    var kept := s[..Fitting(s, n - 1)];
    if m > 1 {
      ParseEscaped(kept, "", m - 1);
      assert Escape(kept) + [QUOTE] + "" == Escape(kept) + [QUOTE];
    }
    if s != "" {
      FittingExactly(s, n - 1, |s| - 1);
      assert s[..|s|] == s;
    }
  }

  lemma PrependAfter(c: char, t: string, rest: Option<string>)
    ensures Prepend(c, After(t, rest)) == After([c] + t, rest)
  {
    if rest.Some? {
      assert [c] + (t + rest.value) == [c] + t + rest.value;
    }
  }

  /** Characters that are neither quotes nor backslashes are read as they are. */
  lemma {:induction false} ParseLiteral(t: string, rest: string, left: int)
    requires QUOTE !in t && BACKSLASH !in t && left > |t|
    ensures Parse(t + rest, left) == After(t, Parse(rest, left - |t|))
    decreases |t|
  {
    if t == "" {
      assert t + rest == rest;
      AfterOne("", ' ', None);
      assert Parse(rest, left).Some? ==> "" + Parse(rest, left).value == Parse(rest, left).value;
    } else {
      assert (t + rest)[0] == t[0] && (t + rest)[1..] == t[1..] + rest;
      ParseLiteral(t[1..], rest, left - 1);
      PrependAfter(t[0], t[1..], Parse(rest, left - |t|));
      assert [t[0]] + t[1..] == t;
    }
  }

  lemma ParseOtherEscape(c: char, rest: string, left: int)
    requires !IsPlain(c) && left > 5
    ensures Parse(EscapeChar(c) + rest, left) == After(Reread(c), Parse(rest, left - 5))
  {
    var code := "00" + HexByte(c);
    var t := EscapeChar(c) + rest;
    assert t[0] == BACKSLASH && t[1] == 'u' && t[2..] == code + rest;
    ParseLiteral(code, rest, left - 1);
    PrependAfter('u', code, Parse(rest, left - 5));
    assert ['u'] + code == Reread(c);
  }

  /** With room enough, any text is read back with each character that is not plain as u and four digits. */
  lemma {:induction false} ParseEscapedText(s: string, left: nat)
    requires IsText(s) && left > 5 * |s|
    ensures Parse(Escape(s) + [QUOTE], left) == Some(RereadAll(s))
    decreases |s|
  {
    if s == "" {
      assert Escape(s) + [QUOTE] == [QUOTE];
    } else {
      var tail := Escape(s[1..]) + [QUOTE];
      assert Escape(s) + [QUOTE] == EscapeChar(s[0]) + tail;
      if IsPlain(s[0]) {
        ParsePlainEscape(s[0], tail, left);
        ParseEscapedText(s[1..], left - 1);
      } else {
        ParseOtherEscape(s[0], tail, left);
        ParseEscapedText(s[1..], left - 5);
      }
    }
  }

  lemma {:induction false} RereadLength(s: string)
    requires IsText(s)
    ensures |RereadAll(s)| >= |s|
    ensures RereadAll(s) == s <==> AllPlain(s)
    ensures |RereadAll(s)| == |s| <==> AllPlain(s)
  {
    if s != "" {
      RereadLength(s[1..]);
      assert s == [s[0]] + s[1..];
      assert AllPlain(s) <==> IsPlain(s[0]) && AllPlain(s[1..]);
    }
  }

  /** With room enough, escaping and parsing gives the text back exactly when all of it is plain. */
  lemma RoundTripExactly(s: string, left: nat)
    requires IsText(s) && left > 5 * |s|
    ensures Parse(Escape(s) + [QUOTE], left) == Some(s) <==> AllPlain(s)
  {
    ParseEscapedText(s, left);
    RereadLength(s);
  }
}
