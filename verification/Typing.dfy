/** Typing text as keyboard events (device/springboard/InputInjector.m), and a keyboard that reads them. */
module Typing {
  import opened Common

  const LEFT_SHIFT: nat := 0xE1
  const BACKSPACE: char := 8 as char

  datatype Key = Key(usage: nat, shift: bool)

  /** The key that types a character on a US layout. */
  function KeyboardUsage(c: char): Option<Key> {
    if 'a' <= c <= 'z' then Some(Key(0x04 + (c as int - 'a' as int), false))
    else if 'A' <= c <= 'Z' then Some(Key(0x04 + (c as int - 'A' as int), true))
    else if '1' <= c <= '9' then Some(Key(0x1E + (c as int - '1' as int), false))
    else if c == '0' then Some(Key(0x27, false))
    else if c == BACKSPACE then Some(Key(0x2A, false))
    else
      match c
      case ' ' => Some(Key(0x2C, false))
      case '\t' => Some(Key(0x2B, false))
      case '\n' => Some(Key(0x28, false))
      case '\r' => Some(Key(0x28, false))
      case '-' => Some(Key(0x2D, false))
      case '=' => Some(Key(0x2E, false))
      case '[' => Some(Key(0x2F, false))
      case ']' => Some(Key(0x30, false))
      case '\\' => Some(Key(0x31, false))
      case ';' => Some(Key(0x33, false))
      case '\'' => Some(Key(0x34, false))
      case '`' => Some(Key(0x35, false))
      case ',' => Some(Key(0x36, false))
      case '.' => Some(Key(0x37, false))
      case '/' => Some(Key(0x38, false))
      case '!' => Some(Key(0x1E, true))
      case '@' => Some(Key(0x1F, true))
      case '#' => Some(Key(0x20, true))
      case '$' => Some(Key(0x21, true))
      case '%' => Some(Key(0x22, true))
      case '^' => Some(Key(0x23, true))
      case '&' => Some(Key(0x24, true))
      case '*' => Some(Key(0x25, true))
      case '(' => Some(Key(0x26, true))
      case ')' => Some(Key(0x27, true))
      case '_' => Some(Key(0x2D, true))
      case '+' => Some(Key(0x2E, true))
      case '{' => Some(Key(0x2F, true))
      case '}' => Some(Key(0x30, true))
      case '|' => Some(Key(0x31, true))
      case ':' => Some(Key(0x33, true))
      case '"' => Some(Key(0x34, true))
      case '~' => Some(Key(0x35, true))
      case '<' => Some(Key(0x36, true))
      case '>' => Some(Key(0x37, true))
      case '?' => Some(Key(0x38, true))
      case _ => None
  }

  // ---------------------------------------------------------------- sending

  datatype KeyEvent = KeyEvent(usage: nat, down: bool)

  /** The events whose dispatch was tried. */
  type Tried = seq<KeyEvent>

  /** Says whether the k-th dispatch tried gets through. */
  type Dispatch = nat -> bool

  function Try(t: Tried, e: KeyEvent, works: Dispatch): (Tried, bool) { (t + [e], works(|t|)) }

  /** Press and release of one key; a failed press is not followed by a release. */
  function SendStroke(t: Tried, usage: nat, works: Dispatch): (Tried, bool) {
    var (pressed, ok) := Try(t, KeyEvent(usage, true), works);
    if ok then Try(pressed, KeyEvent(usage, false), works) else (pressed, false)
  }

  function SendKey(t: Tried, key: Key, works: Dispatch): (Tried, bool) {
    if !key.shift then SendStroke(t, key.usage, works)
    else
      var (shifted, ok) := Try(t, KeyEvent(LEFT_SHIFT, true), works);
      if !ok then (shifted, false)
      else
        var (typed, stroke) := SendStroke(shifted, key.usage, works);
        var (released, up) := Try(typed, KeyEvent(LEFT_SHIFT, false), works);
        (released, stroke && up)
  }

  function KeysOf(text: string): (keys: seq<Option<Key>>)
    ensures |keys| == |text| && forall i | 0 <= i < |text| :: keys[i] == KeyboardUsage(text[i])
  {
    seq(|text|, i requires 0 <= i < |text| => KeyboardUsage(text[i]))
  }

  /** The first `n` keys; a character without a key or a failed dispatch ends the typing. */
  function SendKeys(keys: seq<Option<Key>>, works: Dispatch, n: nat): (Tried, bool)
    requires n <= |keys|
  {
    if n == 0 then ([], true)
    else
      var (before, ok) := SendKeys(keys, works, n - 1);
      if !ok || keys[n - 1].None? then (before, false) else SendKey(before, keys[n - 1].value, works)
  }

  class EventClient {
    var tried: Tried
    const works: Dispatch

    constructor (works: Dispatch)
      ensures tried == [] && this.works == works
    {
      tried, this.works := [], works;
    }

    method KeyboardEvent(usage: nat, down: bool) returns (ok: bool)
      modifies this
      ensures (tried, ok) == Try(old(tried), KeyEvent(usage, down), works)
    {
      ok := works(|tried|);
      tried := tried + [KeyEvent(usage, down)];
    }

    method TypeKey(key: Key) returns (ok: bool)
      modifies this
      ensures (tried, ok) == SendKey(old(tried), key, works)
    {
      if key.shift {
        ok := KeyboardEvent(LEFT_SHIFT, true);
        if !ok { return; }
      }
      ok := KeyboardEvent(key.usage, true);
      if ok { ok := KeyboardEvent(key.usage, false); }
      if !ok {
        if key.shift { var _ := KeyboardEvent(LEFT_SHIFT, false); }
        return false;
      }
      if key.shift { ok := KeyboardEvent(LEFT_SHIFT, false); }
    }

    method InsertText(text: string) returns (ok: bool)
      requires tried == []
      modifies this
      ensures (tried, ok) == SendKeys(KeysOf(text), works, |text|)
    {
      var keys := KeysOf(text);
      ok := true;
      for index := 0 to |keys|
        invariant ok && SendKeys(keys, works, index) == (tried, ok)
      {
        if keys[index].None? {
          ok := false;
        } else {
          ok := TypeKey(keys[index].value);
        }
        assert SendKeys(keys, works, index + 1) == (tried, ok);
        if !ok {
          FailureStays(keys, works, index + 1, |keys|);
          return;
        }
      }
    }
  }

  lemma {:induction false} FailureStays(keys: seq<Option<Key>>, works: Dispatch, m: nat, n: nat)
    requires m <= n <= |keys| && !SendKeys(keys, works, m).1
    ensures SendKeys(keys, works, n) == SendKeys(keys, works, m)
  {
    if m == n {
    } else {
      FailureStays(keys, works, m, n - 1);
    }
  }

  // ---------------------------------------------------------------- reading

  /** The Keyboard/Keypad page of the USB HID Usage Tables 1.12, section 10, as far as it names characters. */
  function Meaning(usage: nat, shift: bool): Option<char> {
    if 0x04 <= usage <= 0x1D then Some((usage - 0x04 + (if shift then 'A' else 'a') as int) as char)
    else if 0x1E <= usage <= 0x27 then
      Some(if shift then "!@#$%^&*()"[usage - 0x1E] else "1234567890"[usage - 0x1E])
    else if usage == 0x28 then Some('\n')
    else if usage == 0x2A then Some(BACKSPACE)
    else if usage == 0x2B then Some('\t')
    else if usage == 0x2C then Some(' ')
    else if 0x2D <= usage <= 0x31 then
      Some(if shift then "_+{}|"[usage - 0x2D] else "-=[]\\"[usage - 0x2D])
    else if 0x33 <= usage <= 0x38 then
      Some(if shift then ":\"~<>?"[usage - 0x33] else ";'`,./"[usage - 0x33])
    else None
  }

  /** What a keyboard takes a key for, with and without shift. */
  type Layout = (nat, bool) -> Option<char>

  /** A keyboard's reader: the text so far, and the keys that are down. */
  datatype Reader = Reader(text: string, held: set<nat>)

  /** A press of a key that is down already types nothing. */
  function ReadEvent(layout: Layout, r: Reader, e: KeyEvent): Reader {
    if !e.down then r.(held := r.held - {e.usage})
    else if e.usage in r.held then r
    else
      var typed := if e.usage == LEFT_SHIFT then None else layout(e.usage, LEFT_SHIFT in r.held);
      Reader(if typed.Some? then r.text + [typed.value] else r.text, r.held + {e.usage})
  }

  /** Reads the events that got through. */
  function Read(layout: Layout, works: Dispatch, t: Tried): Reader {
    if t == [] then Reader("", {})
    else
      var before := Read(layout, works, t[..|t| - 1]);
      if works(|t| - 1) then ReadEvent(layout, before, t[|t| - 1]) else before
  }

  lemma TryIsRead(layout: Layout, works: Dispatch, t: Tried, e: KeyEvent)
    ensures var before := Read(layout, works, t);
            Read(layout, works, Try(t, e, works).0) == if works(|t|) then ReadEvent(layout, before, e) else before
  {
    assert (t + [e])[..|t|] == t;
  }

  /** The keys with a release that was tried and did not get through. */
  function FailedReleases(works: Dispatch, t: Tried): set<nat> {
    if t == [] then {}
    else
      var before, last := FailedReleases(works, t[..|t| - 1]), t[|t| - 1];
      if !last.down && !works(|t| - 1) then before + {last.usage} else before
  }

  lemma {:induction false} FailedReleasesAre(works: Dispatch, t: Tried, usage: nat)
    ensures usage in FailedReleases(works, t) <==>
            exists i | 0 <= i < |t| :: t[i] == KeyEvent(usage, false) && !works(i)
  {
    if t == [] {
    } else {
      var before, last := t[..|t| - 1], t[|t| - 1];
      FailedReleasesAre(works, before, usage);
      assert t == before + [last];
      if usage in FailedReleases(works, before) {
        var i :| 0 <= i < |before| && before[i] == KeyEvent(usage, false) && !works(i);
        assert t[i] == KeyEvent(usage, false);
      }
    }
  }

  lemma TryFails(works: Dispatch, t: Tried, e: KeyEvent)
    ensures FailedReleases(works, Try(t, e, works).0) ==
            FailedReleases(works, t) + if !e.down && !works(|t|) then {e.usage} else {}
  {
    assert (t + [e])[..|t|] == t;
  }

  /** Return is the only key for a line end. */
  function Line(c: char): char { if c == '\r' then '\n' else c }

  function Lines(text: string): string {
    seq(|text|, i requires 0 <= i < |text| => Line(text[i]))
  }

  predicate Typeable(c: char) { ' ' <= c <= '~' || c == '\t' || c == '\n' || c == '\r' || c == BACKSPACE }

  /** Exactly the printable ASCII characters and four controls have a key. */
  lemma TypeableHaveKeys(c: char)
    ensures KeyboardUsage(c).Some? <==> Typeable(c)
  {
  }

  /** `key` means `c` on the HID page. */
  predicate Means(key: Key, c: char) {
    key.usage != LEFT_SHIFT && Meaning(key.usage, key.shift) == Some(Line(c))
  }

  lemma LetterKeys(c: char)
    requires 'a' <= c <= 'z' || 'A' <= c <= 'Z'
    ensures KeyboardUsage(c).Some? && Means(KeyboardUsage(c).value, c)
  {
  }

  lemma DigitKeys(c: char)
    requires '0' <= c <= '9'
    ensures KeyboardUsage(c).Some? && Means(KeyboardUsage(c).value, c)
  {
  }

  /** The characters typed by keys of other characters with shift. */
  lemma ShiftedKeys(c: char)
    requires KeyboardUsage(c).Some? && KeyboardUsage(c).value.shift && !('A' <= c <= 'Z')
    ensures Means(KeyboardUsage(c).value, c)
  {
  }

  lemma PlainKeys(c: char)
    requires KeyboardUsage(c).Some? && !KeyboardUsage(c).value.shift && !('a' <= c <= 'z') && !('0' <= c <= '9')
    ensures Means(KeyboardUsage(c).value, c)
  {
  }

  /** A character's key means that character on the HID page. */
  lemma KeysMeanTheirCharacters(c: char)
    requires KeyboardUsage(c).Some?
    ensures var key := KeyboardUsage(c).value;
            key.usage != LEFT_SHIFT && Meaning(key.usage, key.shift) == Some(Line(c))
  {
    if 'a' <= c <= 'z' || 'A' <= c <= 'Z' {
      LetterKeys(c);
    } else if '0' <= c <= '9' {
      DigitKeys(c);
    } else if KeyboardUsage(c).value.shift {
      ShiftedKeys(c);
    } else {
      PlainKeys(c);
    }
    assert Means(KeyboardUsage(c).value, c);
  }

  /** `keys` are keys for the characters of `text`. */
  ghost predicate KeysFor(layout: Layout, keys: seq<Option<Key>>, text: string) {
    && |keys| == |text|
    && forall i | 0 <= i < |text| && keys[i].Some? ::
         keys[i].value.usage != LEFT_SHIFT && layout(keys[i].value.usage, keys[i].value.shift) == Some(text[i])
  }

  /** The key whose release is tried and fails in a stroke. */
  function StrokeFailure(usage: nat, works: Dispatch, from: nat): set<nat> {
    if works(from) && !works(from + 1) then {usage} else {}
  }

  /**
   * A press and release of a key that is up, on a keyboard that reads it as `c`: it is read as `c` if
   * the press got through, and is up again unless its release failed.
   */
  lemma StrokeIsRead(layout: Layout, works: Dispatch, t: Tried, usage: nat, c: char)
    requires usage != LEFT_SHIFT && usage !in Read(layout, works, t).held
    requires layout(usage, LEFT_SHIFT in Read(layout, works, t).held) == Some(c)
    ensures var (after, ok) := SendStroke(t, usage, works);
            var was, now := Read(layout, works, t), Read(layout, works, after);
            && now.text == (if works(|t|) then was.text + [c] else was.text)
            && now.held == was.held + StrokeFailure(usage, works, |t|)
            && (ok <==> works(|t|) && works(|t| + 1))
  {
    var press, was := KeyEvent(usage, true), Read(layout, works, t);
    TryIsRead(layout, works, t, press);
    if works(|t|) {
      var pressed := Read(layout, works, t + [press]);
      assert pressed == Reader(was.text + [c], was.held + {usage});
      TryIsRead(layout, works, t + [press], KeyEvent(usage, false));
      UpAgain(was.held, usage);
    }
  }

  lemma UpAgain(held: set<nat>, usage: nat)
    requires usage !in held
    ensures held + {usage} - {usage} == held
  {
  }

  lemma StrokeFails(works: Dispatch, t: Tried, usage: nat)
    ensures FailedReleases(works, SendStroke(t, usage, works).0) ==
            FailedReleases(works, t) + StrokeFailure(usage, works, |t|)
  {
    var press := KeyEvent(usage, true);
    TryFails(works, t, press);
    if works(|t|) { TryFails(works, t + [press], KeyEvent(usage, false)); }
  }

  /** A keyboard on which exactly the keys whose release failed are down. */
  ghost predicate HoldsFailed(layout: Layout, works: Dispatch, t: Tried) {
    Read(layout, works, t).held == FailedReleases(works, t)
  }

  /**
   * One character on a keyboard with no key down: it is read as itself if anything is, and
   * afterwards exactly the keys whose release failed are down, so none on success.
   */
  lemma KeyIsRead(layout: Layout, works: Dispatch, t: Tried, key: Key, c: char)
    requires Read(layout, works, t).held == {} && HoldsFailed(layout, works, t)
    requires key.usage != LEFT_SHIFT && layout(key.usage, key.shift) == Some(c)
    ensures var (after, ok) := SendKey(t, key, works);
            var was, now := Read(layout, works, t), Read(layout, works, after);
            && (now.text == was.text || now.text == was.text + [c])
            && (ok ==> now == Reader(was.text + [c], {}))
            && HoldsFailed(layout, works, after)
  {
    if !key.shift {
      StrokeIsRead(layout, works, t, key.usage, c);
      StrokeFails(works, t, key.usage);
    } else {
      var down := KeyEvent(LEFT_SHIFT, true);
      TryIsRead(layout, works, t, down);
      TryFails(works, t, down);
      if works(|t|) {
        assert Read(layout, works, t + [down]).held == {LEFT_SHIFT};
        StrokeIsRead(layout, works, t + [down], key.usage, c);
        StrokeFails(works, t + [down], key.usage);
        var typed := SendStroke(t + [down], key.usage, works).0;
        TryIsRead(layout, works, typed, KeyEvent(LEFT_SHIFT, false));
        TryFails(works, typed, KeyEvent(LEFT_SHIFT, false));
      }
    }
  }

  /** What a keyboard has read when a typing got as far as the first `n` characters. */
  ghost predicate ReadSoFar(layout: Layout, text: string, works: Dispatch, n: nat, after: Tried, ok: bool)
    requires n <= |text|
  {
    var now := Read(layout, works, after);
    && now.text <= text[..n]
    && (ok ==> now == Reader(text[..n], {}))
    && HoldsFailed(layout, works, after)
  }

  lemma NextKeyIsRead(layout: Layout, key: Key, text: string, works: Dispatch, n: nat, before: Tried)
    requires n < |text| && ReadSoFar(layout, text, works, n, before, true)
    requires key.usage != LEFT_SHIFT && layout(key.usage, key.shift) == Some(text[n])
    ensures var (after, ok) := SendKey(before, key, works);
            ReadSoFar(layout, text, works, n + 1, after, ok)
  {
    KeyIsRead(layout, works, before, key, text[n]);
    assert text[..n + 1] == text[..n] + [text[n]];
  }

  lemma NoKeyIsRead(layout: Layout, text: string, works: Dispatch, n: nat, before: Tried, ok: bool)
    requires n < |text| && ReadSoFar(layout, text, works, n, before, ok)
    ensures ReadSoFar(layout, text, works, n + 1, before, false)
  {
  }

  /**
   * Typing over any pattern of failed dispatches: what a keyboard reads is always an initial part
   * of the text, all of it on success with no key down, and the keys left down by a failure are
   * exactly those whose release failed.
   */
  lemma {:induction false} KeysAreRead(layout: Layout, keys: seq<Option<Key>>, text: string, works: Dispatch, n: nat)
    requires KeysFor(layout, keys, text) && n <= |text|
    ensures var (after, ok) := SendKeys(keys, works, n);
            ReadSoFar(layout, text, works, n, after, ok)
  {
    if n == 0 {
    } else {
      KeysAreRead(layout, keys, text, works, n - 1);
      var (before, ok) := SendKeys(keys, works, n - 1);
      if ok && keys[n - 1].Some? {
        NextKeyIsRead(layout, keys[n - 1].value, text, works, n - 1, before);
      } else {
        NoKeyIsRead(layout, text, works, n - 1, before, ok);
      }
    }
  }

  lemma KeySucceeds(t: Tried, key: Key, works: Dispatch)
    ensures var (after, ok) := SendKey(t, key, works);
            |t| < |after| && (ok <==> forall k | |t| <= k < |after| :: works(k))
  {
  }

  /** Typing succeeds exactly when every character has a key and every dispatch tried works. */
  lemma {:induction false} TypingSucceeds(keys: seq<Option<Key>>, works: Dispatch, n: nat)
    requires n <= |keys|
    ensures var (after, ok) := SendKeys(keys, works, n);
            ok <==> (forall i | 0 <= i < n :: keys[i].Some?) && forall k | 0 <= k < |after| :: works(k)
  {
    if n == 0 {
    } else {
      TypingSucceeds(keys, works, n - 1);
      var (before, ok) := SendKeys(keys, works, n - 1);
      if ok && keys[n - 1].Some? {
        KeySucceeds(before, keys[n - 1].value, works);
      }
    }
  }

  lemma KeysOfTextFit(text: string)
    ensures KeysFor(Meaning, KeysOf(text), Lines(text))
    ensures (forall i | 0 <= i < |text| :: KeysOf(text)[i].Some?) <==> (forall c <- text :: Typeable(c))
  {
    forall i | 0 <= i < |text|
      ensures KeysOf(text)[i].Some? <==> Typeable(text[i])
    {
      TypeableHaveKeys(text[i]);
    }
    forall i | 0 <= i < |text| && KeysOf(text)[i].Some? { KeysMeanTheirCharacters(text[i]); }
  }

  /**
   * The round trip, on a keyboard for which a key held down types only once: typed with success, a
   * text is read back with carriage returns as line ends and no key down; typed without, an initial
   * part of it is, and down are exactly the keys whose release failed. The typing succeeds exactly
   * when the text is typeable and every dispatch works.
   */
  lemma TypedTextIsRead(text: string, works: Dispatch)
    ensures var (after, ok) := SendKeys(KeysOf(text), works, |text|);
            var read := Read(Meaning, works, after);
            && read.text <= Lines(text)
            && (ok ==> read == Reader(Lines(text), {}))
            && (forall usage :: usage in read.held <==>
                  exists i | 0 <= i < |after| :: after[i] == KeyEvent(usage, false) && !works(i))
            && (ok <==> (forall c <- text :: Typeable(c)) && forall k | 0 <= k < |after| :: works(k))
  {
    KeysOfTextFit(text);
    KeysAreRead(Meaning, KeysOf(text), Lines(text), works, |text|);
    TypingSucceeds(KeysOf(text), works, |text|);
    assert Lines(text)[..|text|] == Lines(text);
    forall usage { FailedReleasesAre(works, SendKeys(KeysOf(text), works, |text|).0, usage); }
  }
}
