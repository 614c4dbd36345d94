/** The pure parts of `GracerCompletionProvider` in gracer.py: when completion is
    offered, how a context line is escaped for the info pane, and which icon a kind gets. */
module Proposals {
  import opened Common
  import opened Text

  /** The character `do_match` inspects: it steps the cursor back one character (which
      stays put at the start of the buffer) and reads the character there; past the end
      of the buffer GTK reports the character 0. */
  function CharBeforeCursor(text: string, offset: nat): char
    requires offset <= |text|
  {
    var at := if offset == 0 then 0 else offset - 1;
    if at < |text| then text[at] else 0 as char
  }

  /** `do_match`: completion is offered after `:`, `.`, `&` or an alphanumeric character;
      `isAlnum` stands for Python's `str.isalnum`. */
  predicate DoMatch(text: string, offset: nat, isAlnum: char -> bool)
    requires offset <= |text|
  {
    var ch := CharBeforeCursor(text, offset);
    ch in [':', '.', '&'] || isAlnum(ch)
  }

  /** Typing a trigger character anywhere offers completion right after it, whatever
      `isalnum` says. */
  lemma TypedTriggerMatches(text: string, k: nat, c: char, isAlnum: char -> bool)
    requires k <= |text| && c in [':', '.', '&']
    ensures var t := text[..k] + [c] + text[k..]; k + 1 <= |t| && DoMatch(t, k + 1, isAlnum)
  {
    var t := text[..k] + [c] + text[k..];
    assert t[k] == c;
  }

  /** A non-alphanumeric character other than `:`, `.` and `&` before the cursor
      suppresses completion. */
  lemma OtherCharacterDoesNotMatch(text: string, k: nat, c: char, isAlnum: char -> bool)
    requires k <= |text| && c !in [':', '.', '&'] && !isAlnum(c)
    ensures var t := text[..k] + [c] + text[k..]; k + 1 <= |t| && !DoMatch(t, k + 1, isAlnum)
  {
    var t := text[..k] + [c] + text[k..];
    assert t[k] == c;
  }

  /** `line.replace('&', '&amp;').replace('<', '&lt;')`. */
  function EscapeInfo(s: string): string {
    ReplaceChar(ReplaceChar(s, '&', "&amp;"), '<', "&lt;")
  }

  /** Each character on its own: `&` and `<` become entities, the rest stays. */
  function EscapeEach(s: string): (r: string)
    ensures '<' !in r
  {
    if s == [] then []
    else (if s[0] == '&' then "&amp;" else if s[0] == '<' then "&lt;" else [s[0]]) + EscapeEach(s[1..])
  }

  /** Because `&` is replaced first, the `&` of each `&lt;` is not escaped again: the
      two replacements amount to escaping each character once. */
  lemma {:induction false} EscapeInfoIsPerCharacter(s: string)
    ensures EscapeInfo(s) == EscapeEach(s)
    ensures '<' !in EscapeInfo(s)
  {
    if s != [] {
      EscapeInfoIsPerCharacter(s[1..]);
      var head := if s[0] == '&' then "&amp;" else [s[0]];
      assert ReplaceChar(s, '&', "&amp;") == head + ReplaceChar(s[1..], '&', "&amp;");
      ReplaceCharAppend(head, ReplaceChar(s[1..], '&', "&amp;"), '<', "&lt;");
      if s[0] == '<' {
        assert ReplaceChar(head, '<', "&lt;") == "&lt;" + ReplaceChar([], '<', "&lt;");
      } else if s[0] != '&' {
        assert ReplaceChar(head, '<', "&lt;") == head + ReplaceChar([], '<', "&lt;");
      } else {
        assert '<' !in head;
      }
    }
  }

  /** Replacing in the other order would escape the `&` that `&lt;` introduces. */
  lemma OppositeOrderDoubleEscapes()
    ensures ReplaceChar(ReplaceChar("<", '<', "&lt;"), '&', "&amp;") == "&amp;lt;"
    ensures EscapeInfo("<") == "&lt;"
  {
    var lt := "&lt;";
    assert ReplaceChar("<", '<', lt) == lt by {
      assert ReplaceChar("<", '<', lt) == lt + ReplaceChar([], '<', lt);
    }
    assert ReplaceChar(lt, '&', "&amp;") == "&amp;lt;" by {
      assert lt[1..] == "lt;";
      assert '&' !in "lt;";
      assert ReplaceChar(lt, '&', "&amp;") == "&amp;" + ReplaceChar("lt;", '&', "&amp;");
    }
    assert EscapeInfo("<") == lt by {
      EscapeInfoIsPerCharacter("<");
      assert EscapeEach("<") == lt + EscapeEach([]);
    }
  }

  /** Reading the entities back, as the info pane's markup does. */
  function Unescape(s: string): string
    decreases |s|
  {
    if s == [] then []
    else if StartsWith(s, "&amp;") then "&" + Unescape(s[5..])
    else if StartsWith(s, "&lt;") then "<" + Unescape(s[4..])
    else [s[0]] + Unescape(s[1..])
  }

  /** The escaped context line reads back as the original. */
  lemma {:induction false} UnescapeEscapeInfo(s: string)
    ensures Unescape(EscapeInfo(s)) == s
  {
    EscapeInfoIsPerCharacter(s);
    UnescapeEscapeEach(s);
  }

  lemma {:induction false} UnescapeEscapeEach(s: string)
    ensures Unescape(EscapeEach(s)) == s
  {
    if s != [] {
      UnescapeEscapeEach(s[1..]);
      var e := EscapeEach(s);
      var rest := EscapeEach(s[1..]);
      if s[0] == '&' {
        assert e == "&amp;" + rest;
        assert e[5..] == rest;
        assert e[..5] == "&amp;";
        assert Unescape(e) == "&" + Unescape(rest);
      } else if s[0] == '<' {
        assert e == "&lt;" + rest;
        assert e[4..] == rest;
        assert e[..4] == "&lt;";
        assert e[1] == 'l' != "&amp;"[1];
        assert Unescape(e) == "<" + Unescape(rest);
      } else {
        assert e == [s[0]] + rest;
        assert e[1..] == rest;
        assert e[0] != '&';
        assert Unescape(e) == [s[0]] + Unescape(rest);
      }
      assert [s[0]] + s[1..] == s;
    }
  }

  /** `Gtk.STOCK_YES`, the fallback icon. */
  const StockYes := "gtk-yes"

  /** `get_icon_for_type`'s table (the same in both versions of the plugin). */
  const IconNames: map<string, string> := map[
    "Module" := "code-class",
    "Struct" := "code-class",
    "StructField" := "field",
    "Trait" := "field",
    "Function" := "code-function",
    "Let" := "code-variable",
    "Enum" := "icon",
    "Crate" := "code-class"]

  /** The icon `get_icon_for_type` loads from a theme offering the icons `theme`: the
      table's icon, else (unknown kind, or the theme lacks it) the stock icon; only a
      theme without the stock icon makes it raise. */
  function IconFor(kind: string, theme: set<string>): (r: Result<string>)
    ensures r.Ok? ==> r.value in theme
    ensures r.Ok? <==> (kind in IconNames && IconNames[kind] in theme) || StockYes in theme
    ensures r.Ok? && r.value != StockYes ==> kind in IconNames && r.value == IconNames[kind]
    ensures kind in IconNames && IconNames[kind] in theme ==> r == Ok(IconNames[kind])
    ensures !(kind in IconNames && IconNames[kind] in theme) && StockYes in theme ==> r == Ok(StockYes)
    ensures r.Err? ==> r.error == GError
  {
    if kind in IconNames && IconNames[kind] in theme then Ok(IconNames[kind])
    else if StockYes in theme then Ok(StockYes)
    else Err(GError)
  }
}
