/** The inline formatter: a run of text and the class of the element carrying it
    become markdown. */
module Formatter {
  import opened Dom
  import opened Text

  /** The classes the formatter decorates for: one of the four exact style names,
      or any class naming both `italic` and `bold` (as substrings). */
  predicate Styled(cls: Option<string>) {
    cls.Some?
    && (cls.value in {"codespan", "bold", "italic", "strikethrough"}
        || (Contains(cls.value, "italic") && Contains(cls.value, "bold")))
  }

  /** The delimiters the formatter can wrap a run in; "" stands for none. */
  const Delimiters: set<string> := {"", "`", "**", "*", "~~", "***"}

  /** `_append_content_with_class`: an absent or empty class leaves the text as it
      is; the exact classes are tried before the combined one. */
  function AppendContentWithClass(text: string, cls: Option<string>): (r: string)
    ensures r == text <==> !Styled(cls)
  {
    if cls.None? || cls.value == "" then text
    else if cls.value == "codespan" then "`" + text + "`"
    else if cls.value == "bold" then "**" + text + "**"
    else if cls.value == "italic" then "*" + text + "*"
    else if cls.value == "strikethrough" then "~~" + text + "~~"
    else if Contains(cls.value, "italic") && Contains(cls.value, "bold") then "***" + text + "***"
    else text
  }

  /** Each exact class gets its own delimiter. */
  lemma FormatExactClasses(text: string)
    ensures AppendContentWithClass(text, Some("codespan")) == "`" + text + "`"
    ensures AppendContentWithClass(text, Some("bold")) == "**" + text + "**"
    ensures AppendContentWithClass(text, Some("italic")) == "*" + text + "*"
    ensures AppendContentWithClass(text, Some("strikethrough")) == "~~" + text + "~~"
  {
  }

  /** A class naming both `italic` and `bold` that is none of the exact classes
      gets the triple delimiter, whatever else it says and in whichever order. */
  lemma FormatBoldItalic(text: string, cls: string)
    requires cls !in {"codespan", "bold", "italic", "strikethrough"}
    requires Contains(cls, "italic") && Contains(cls, "bold")
    ensures AppendContentWithClass(text, Some(cls)) == "***" + text + "***"
  {
  }

  /** No class, an empty class and an unrecognised class leave the run unchanged. */
  lemma FormatPassthrough(text: string, cls: Option<string>)
    requires cls.None? || cls == Some("") || !Styled(cls)
    ensures AppendContentWithClass(text, cls) == text
  {
  }

  /** Whatever the class, the run is kept whole and wrapped in the same delimiter on
      both sides, and that delimiter is empty exactly for the unstyled classes. */
  lemma FormatWraps(text: string, cls: Option<string>)
    ensures exists d :: d in Delimiters && AppendContentWithClass(text, cls) == d + text + d
                        && (d == "" <==> !Styled(cls))
  {
    var r := AppendContentWithClass(text, cls);
    var d :=
      if !Styled(cls) then ""
      else if cls.value == "codespan" then "`"
      else if cls.value == "bold" then "**"
      else if cls.value == "italic" then "*"
      else if cls.value == "strikethrough" then "~~"
      else "***";
    assert d in Delimiters && r == d + text + d;
  }

  /** Both style words in one class, as an editor writes them: `***foo***`. */
  lemma FormatBoldItalicExample()
    ensures AppendContentWithClass("foo", Some("bold italic")) == "***foo***"
  {
    var c := "bold italic";
    assert "bold" <= c;
    assert c[5..] == "italic";
    ContainsSuffix(c, 5, "italic");
  }
}
