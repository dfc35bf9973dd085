/**
 * Worked instances of the operator tool's rules: the level aliases and the
 * three source idioms `discover_tags` recognises.
 */
module LogLevelCliExamples {
  import opened Wrappers
  import opened LogLevelCli

  /** A level number above 5 is not coerced to a level: it fails. */
  lemma DigitAboveFiveFails(d: char)
    requires '6' <= d <= '9'
    ensures NormalizeLevel([d]).Failure?
  {
    PyStripFixesStripped([d]);
    assert PyUpper([d]) == [d] by {
      assert PyUpperChar(d) == d;
    }
    OneCharKeys([d]);
  }

  /** A negative number, or anything else that starts with a minus sign, fails. */
  lemma MinusFails(level: string)
    requires level != [] && level[0] == '-'
    ensures NormalizeLevel(level).Failure?
  {
    var stripped := PyStrip(level);
    assert stripped != [] ==> stripped[0] == '-' by {
      assert PyStripLeft(level) == level;
    }
    var key := PyUpper(stripped);
    assert key != [] ==> key[0] == '-';
    KeysAreWords(key);
  }

  /** Empty or all-whitespace text fails. */
  lemma BlankFails(level: string)
    requires AllPySpace(level)
    ensures NormalizeLevel(level).Failure?
  {
    KeysAreWords(PyUpper(PyStrip(level)));
  }

  /** A match that spans the whole text is the only one `finditer` reports. */
  lemma WholeMatchFound(p: Pattern, s: string, tag: string)
    requires s != [] && MatchAt(p, s, 0) == Some(Match(tag, |s|))
    ensures FindAll(p, s, 0) == [tag]
  {
    assert FindAll(p, s, |s|) == [];
  }

  /** A quoted tag that ends the text is captured whole. */
  lemma QuotedWhole(s: string, i: nat, tag: string)
    requires tag != [] && '"' !in tag
    requires i + 2 + |tag| == |s| && s[i..] == "\"" + tag + "\""
    ensures QuotedAt(s, i) == Some(Match(tag, |s|))
  {
    assert s[i] == '"' && s[i + 1] == tag[0];
    assert s[i + 1..|s| - 1] == tag;
    assert '"' !in s[i + 1..|s| - 1];
    var q := NextQuote(s, i + 1);
    assert q.Some? by {
      assert s[|s| - 1] == '"';
      assert '"' in s[i + 1..];
    }
    assert q.value == |s| - 1;
  }

  /** An idiom written plainly and followed by a quoted tag matches up to the closing quote. */
  lemma PlainIdiomMatches(toks: seq<Tok>, text: string, tag: string)
    requires WellFormedToks(toks) && text == RenderFrom(toks, 0) && tag != [] && '"' !in tag
    ensures var s := text + ("\"" + tag + "\""); TokensThenQuoted(s, 0, toks) == Some(Match(tag, |s|))
  {
    RenderFromIs(toks, 0);
    assert toks[0..] == toks;
    var rest := "\"" + tag + "\"";
    var s := Render(toks) + rest;
    assert s[0..] == s;
    RenderMatches(s, 0, toks, rest);
    assert s[|Render(toks)|..] == rest;
    QuotedWhole(s, |Render(toks)|, tag);
  }

  lemma StaticConstToksWellFormed()
    ensures WellFormedToks(StaticConstToks)
  {
  }

  /** The plainest text of the `static const` idiom, its last six elements first. */
  lemma StaticConstSuffix()
    ensures RenderFrom(StaticConstToks, 6) == "*TAG="
  {
  }

  lemma StaticConstRender()
    ensures RenderFrom(StaticConstToks, 0) == "static const char" + RenderFrom(StaticConstToks, 6)
  {
  }

  lemma DefineToksWellFormed()
    ensures WellFormedToks(DefineToks) && RenderFrom(DefineToks, 0) == "#define TAG "
  {
  }

  lemma LogCallToksWellFormed()
    ensures WellFormedToks(LogCallToks) && Render(LogCallToks) == "("
  {
  }

  /** `static const char*TAG="tag"` captures `tag`. */
  lemma StaticConstCaptures(tag: string)
    requires tag != [] && '"' !in tag
    ensures FindAll(StaticConst, "static const char*TAG=" + ("\"" + tag + "\""), 0) == [tag]
  {
    var text := "static const char*TAG=";
    assert RenderFrom(StaticConstToks, 0) == text by {
      StaticConstSuffix();
      StaticConstRender();
    }
    StaticConstToksWellFormed();
    PlainIdiomMatches(StaticConstToks, text, tag);
    WholeMatchFound(StaticConst, text + ("\"" + tag + "\""), tag);
  }

  /** `#define TAG "tag"` captures `tag`. */
  lemma DefineCaptures(tag: string)
    requires tag != [] && '"' !in tag
    ensures FindAll(DefineTag, "#define TAG " + ("\"" + tag + "\""), 0) == [tag]
  {
    DefineToksWellFormed();
    PlainIdiomMatches(DefineToks, "#define TAG ", tag);
    WholeMatchFound(DefineTag, "#define TAG " + ("\"" + tag + "\""), tag);
  }

  /** The prefix of `ESP_EARLY_LOGW(`, up to the argument list. */
  lemma EarlyLogPrefix(s: string)
    requires |s| > 14 && s[..14] == "ESP_EARLY_LOGW"
    ensures LitAt(s, 0, "ESP_") && LitAt(s, 4, "EARLY_") && LitAt(s, 10, "LOG") && IsLogLetter(s[13])
  {
    assert s[..4] == s[..14][..4];
    assert s[4..10] == s[..14][4..10];
    assert s[10..13] == s[..14][10..13];
    assert s[13] == s[..14][13];
  }

  /** `ESP_EARLY_LOGW("tag"` captures `tag`. */
  lemma LogMacroCaptures(tag: string)
    requires tag != [] && '"' !in tag
    ensures FindAll(LogMacro, "ESP_EARLY_LOGW" + ("(" + ("\"" + tag + "\"")), 0) == [tag]
  {
    var tail := "(" + ("\"" + tag + "\"");
    var s := "ESP_EARLY_LOGW" + tail;
    assert s[..14] == "ESP_EARLY_LOGW" && s[14..] == tail;
    EarlyLogPrefix(s);
    LogCallToksWellFormed();
    RenderMatches(s, 14, LogCallToks, "\"" + tag + "\"");
    assert s[15..] == "\"" + tag + "\"";
    QuotedWhole(s, 15, tag);
    assert LogMacroAt(s, 0) == Some(Match(tag, |s|));
    WholeMatchFound(LogMacro, s, tag);
  }
}
