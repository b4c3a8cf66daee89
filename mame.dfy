/**
  The key-string parser of the keybinding configuration: a bracketed key name
  (`"<UP>"`), a modifier form (`"C-x"`, `"M-x"`) or a single character (`"a"`)
  becomes a key input with its ctrl and alt flags. The JSON string has already
  been unquoted; the parser sees its text.
*/
module Mame {
  import opened Wrappers
  import opened RustStr

  datatype KeyCode =
    | Up | Down | Left | Right | Enter | Escape | Backspace | Tab
    | Delete | Insert | Home | End | PageUp | PageDown
    | Char(c: char)

  datatype KeyInput = KeyInput(ctrl: bool, alt: bool, code: KeyCode)

  /** The rejection carries the text that could not be read as a key. */
  datatype KeyError = InvalidKeyFormat(keyStr: string)

  /** The bracketed names, matched exactly and case-sensitively. */
  function BracketKey(s: string): (r: Option<KeyCode>)
    ensures r.Some? ==> !r.value.Char? && IsNameOf(r.value, s)
  {
    if s == "<UP>" then Some(Up)
    else if s == "<DOWN>" then Some(Down)
    else if s == "<LEFT>" then Some(Left)
    else if s == "<RIGHT>" then Some(Right)
    else if s == "<ENTER>" then Some(Enter)
    else if s == "<ESCAPE>" || s == "<ESC>" then Some(Escape)
    else if s == "<BACKSPACE>" then Some(Backspace)
    else if s == "<TAB>" then Some(Tab)
    else if s == "<DELETE>" || s == "<DEL>" then Some(Delete)
    else if s == "<INSERT>" || s == "<INS>" then Some(Insert)
    else if s == "<HOME>" then Some(Home)
    else if s == "<END>" then Some(End)
    else if s == "<PAGEUP>" || s == "<PAGE_UP>" then Some(PageUp)
    else if s == "<PAGEDOWN>" || s == "<PAGE_DOWN>" then Some(PageDown)
    else None
  }

  /** Every spelling of each named key, aliases included; characters have none. */
  predicate IsNameOf(code: KeyCode, s: string)
  {
    match code
    case Up => s == "<UP>"
    case Down => s == "<DOWN>"
    case Left => s == "<LEFT>"
    case Right => s == "<RIGHT>"
    case Enter => s == "<ENTER>"
    case Escape => s == "<ESCAPE>" || s == "<ESC>"
    case Backspace => s == "<BACKSPACE>"
    case Tab => s == "<TAB>"
    case Delete => s == "<DELETE>" || s == "<DEL>"
    case Insert => s == "<INSERT>" || s == "<INS>"
    case Home => s == "<HOME>"
    case End => s == "<END>"
    case PageUp => s == "<PAGEUP>" || s == "<PAGE_UP>"
    case PageDown => s == "<PAGEDOWN>" || s == "<PAGE_DOWN>"
    case Char(_) => false
  }

  predicate IsCtrlPrefix(c: char)
  {
    c == 'C' || c == 'c'
  }

  predicate IsAltPrefix(c: char)
  {
    c == 'A' || c == 'a' || c == 'M' || c == 'm'
  }

  /**
    `parse_key_input`: a bracket name first; then, for text of at least three
    UTF-8 bytes that is exactly three characters with `-` in the middle, a ctrl
    or alt prefix; then text of exactly one UTF-8 byte; anything else is an error.
  */
  function ParseKeyInput(keyStr: string): (r: Result<KeyInput, KeyError>)
    ensures r.Ok? ==> !(r.value.ctrl && r.value.alt)
    ensures r.Err? ==> r.error == InvalidKeyFormat(keyStr)
  {
    match BracketKey(keyStr)
    case Some(code) => Ok(KeyInput(false, false, code))
    case None =>
      if Utf8Len(keyStr) >= 3 && |keyStr| == 3 && keyStr[1] == '-' && IsCtrlPrefix(keyStr[0]) then
        Ok(KeyInput(true, false, Char(keyStr[2])))
      else if Utf8Len(keyStr) >= 3 && |keyStr| == 3 && keyStr[1] == '-' && IsAltPrefix(keyStr[0]) then
        Ok(KeyInput(false, true, Char(keyStr[2])))
      else if Utf8Len(keyStr) == 1 then
        Ok(KeyInput(false, false, Char(keyStr[0])))
      else
        Err(InvalidKeyFormat(keyStr))
  }

  /**
    The spellings that denote a key, stated independently of the parser's
    order of tests: a named key by any of its bracket names, ctrl+c by `C-c` or
    `c-c`, alt+c by `A-c`, `a-c`, `M-c` or `m-c`, a plain ASCII character by itself.
  */
  predicate Spells(s: string, k: KeyInput)
  {
    match k.code
    case Char(c) =>
      if k.ctrl && !k.alt then |s| == 3 && IsCtrlPrefix(s[0]) && s[1] == '-' && s[2] == c
      else if k.alt && !k.ctrl then |s| == 3 && IsAltPrefix(s[0]) && s[1] == '-' && s[2] == c
      else if !k.ctrl && !k.alt then s == [c] && c < '\U{80}'
      else false
    case _ => !k.ctrl && !k.alt && IsNameOf(k.code, s)
  }

  /** A bracket name is never a one- or three-character string. */
  lemma NameIsLong(code: KeyCode, s: string)
    requires IsNameOf(code, s)
    ensures |s| >= 4 && s[0] == '<'
  {
  }

  /** Every spelling of a named key is recognised as that key. */
  lemma BracketKeyOfName(code: KeyCode, s: string)
    requires IsNameOf(code, s)
    ensures BracketKey(s) == Some(code)
  {
  }

  /** The parser accepts a string as a key exactly when the string spells that key. */
  lemma ParseKeyInputSpells(s: string, k: KeyInput)
    ensures ParseKeyInput(s) == Ok(k) <==> Spells(s, k)
  {
    Utf8LenOne(s);
    if Spells(s, k) {
      if k.code.Char? {
        if BracketKey(s).Some? {
          NameIsLong(BracketKey(s).value, s);
        }
        if |s| == 3 {
          assert Utf8Len(s) >= 3;
        }
      } else {
        BracketKeyOfName(k.code, s);
      }
    }
  }

  /** A string is rejected exactly when it spells no key at all. */
  lemma ParseKeyInputRejects(s: string)
    ensures ParseKeyInput(s).Err? <==> forall k :: !Spells(s, k)
  {
    if ParseKeyInput(s).Ok? {
      ParseKeyInputSpells(s, ParseKeyInput(s).value);
    } else {
      forall k ensures !Spells(s, k) {
        ParseKeyInputSpells(s, k);
      }
    }
  }

  /** Aliases are interchangeable: two spellings of one named key parse to the same unmodified key. */
  lemma BracketAliases(code: KeyCode, s1: string, s2: string)
    requires IsNameOf(code, s1) && IsNameOf(code, s2)
    ensures ParseKeyInput(s1) == ParseKeyInput(s2) == Ok(KeyInput(false, false, code))
  {
    BracketKeyOfName(code, s1);
    BracketKeyOfName(code, s2);
  }

  /** Bracket names are case-sensitive: `<up>` is an error. */
  lemma BracketNamesCaseSensitive()
    ensures ParseKeyInput("<up>") == Err(InvalidKeyFormat("<up>"))
  {
    assert Utf8Len("<up>") >= 4;
  }

  /** A single character that takes more than one UTF-8 byte is rejected. */
  lemma MultiByteCharRejected(c: char)
    requires c >= '\U{80}'
    ensures ParseKeyInput([c]).Err?
  {
    Utf8LenOne([c]);
  }

  /** `x-y` with a first character other than a modifier letter is rejected. */
  lemma UnknownModifierRejected(s: string)
    requires |s| == 3 && s[1] == '-' && !IsCtrlPrefix(s[0]) && !IsAltPrefix(s[0])
    ensures ParseKeyInput(s).Err?
  {
    Utf8LenOne(s);
  }

  /** The keys the configuration can express: never both modifiers, no modifier on a named key, and plain characters only from ASCII. */
  predicate Expressible(k: KeyInput)
  {
    && !(k.ctrl && k.alt)
    && (!k.code.Char? ==> !k.ctrl && !k.alt)
    && (k.code.Char? && !k.ctrl && !k.alt ==> k.code.c < '\U{80}')
  }

  /** One spelling of an expressible key. */
  function CanonicalSpelling(k: KeyInput): (s: string)
    requires Expressible(k)
    ensures Spells(s, k)
  {
    match k.code
    case Char(c) =>
      if k.ctrl then ['C', '-', c]
      else if k.alt then ['M', '-', c]
      else [c]
    case Up => "<UP>"
    case Down => "<DOWN>"
    case Left => "<LEFT>"
    case Right => "<RIGHT>"
    case Enter => "<ENTER>"
    case Escape => "<ESC>"
    case Backspace => "<BACKSPACE>"
    case Tab => "<TAB>"
    case Delete => "<DEL>"
    case Insert => "<INS>"
    case Home => "<HOME>"
    case End => "<END>"
    case PageUp => "<PAGEUP>"
    case PageDown => "<PAGEDOWN>"
  }

  /** Every expressible key has a spelling, and only expressible keys come out of the parser. */
  lemma ParseKeyInputRoundTrip(k: KeyInput)
    ensures Expressible(k) ==> ParseKeyInput(CanonicalSpelling(k)) == Ok(k)
    ensures forall s :: ParseKeyInput(s) == Ok(k) ==> Expressible(k)
  {
    if Expressible(k) {
      ParseKeyInputSpells(CanonicalSpelling(k), k);
    }
    forall s | ParseKeyInput(s) == Ok(k) ensures Expressible(k) {
      ParseKeyInputSpells(s, k);
    }
  }
}
