/** SQLite's LIKE operator, the escaping of log filters, and the two LIKE
    patterns the store uses to recognise digests. */
module SqlLike {
  import opened Options

  /** ASCII case folding, the only folding SQLite's LIKE performs. */
  function Fold(c: char): char {
    if 'A' <= c <= 'Z' then (c as int + 32) as char else c
  }

  /** One element of a compiled pattern; Never is an escape with nothing after it. */
  datatype Token = AnyRun | AnyOne | Exactly(c: char) | Never

  function Compile(pattern: string, escape: Option<char>): seq<Token> {
    if pattern == "" then []
    else if escape == Some(pattern[0]) then
      if |pattern| == 1 then [Never]
      else [Exactly(pattern[1])] + Compile(pattern[2..], escape)
    else
      [if pattern[0] == '%' then AnyRun else if pattern[0] == '_' then AnyOne else Exactly(pattern[0])]
      + Compile(pattern[1..], escape)
  }

  predicate Matches(tokens: seq<Token>, text: string)
    decreases |tokens| + |text|
  {
    if tokens == [] then text == ""
    else match tokens[0]
      case AnyRun => Matches(tokens[1..], text) || (text != "" && Matches(tokens, text[1..]))
      case AnyOne => text != "" && Matches(tokens[1..], text[1..])
      case Exactly(c) => text != "" && Fold(text[0]) == Fold(c) && Matches(tokens[1..], text[1..])
      case Never => false
  }

  predicate Like(text: string, pattern: string, escape: Option<char>) {
    Matches(Compile(pattern, escape), text)
  }

  /** escapeLike: a single left-to-right replacement of the three metacharacters. */
  function EscapeLike(text: string): string {
    if text == "" then "" else EscapeChar(text[0]) + EscapeLike(text[1..])
  }

  function EscapeChar(c: char): string {
    if c == '\\' || c == '%' || c == '_' then ['\\', c] else [c]
  }

  // Reference meaning: the text occurs somewhere, ignoring ASCII case.

  predicate SameAt(text: string, start: nat, part: string) {
    start + |part| <= |text| && forall j | 0 <= j < |part| :: Fold(text[start + j]) == Fold(part[j])
  }

  ghost predicate Contains(text: string, part: string) {
    exists start: nat :: SameAt(text, start, part)
  }

  function Literals(part: string): seq<Token> {
    seq(|part|, i requires 0 <= i < |part| => Exactly(part[i]))
  }

  lemma CompileEscapedChar(c: char, rest: string)
    ensures Compile(EscapeChar(c) + rest, Some('\\')) == [Exactly(c)] + Compile(rest, Some('\\'))
  {
  }

  lemma {:induction false} CompileEscaped(part: string, rest: string)
    ensures Compile(EscapeLike(part) + rest, Some('\\')) == Literals(part) + Compile(rest, Some('\\'))
  {
    if part == "" {
      assert EscapeLike(part) + rest == rest;
    } else {
      var tail := EscapeLike(part[1..]) + rest;
      assert EscapeLike(part) + rest == EscapeChar(part[0]) + tail;
      CompileEscapedChar(part[0], tail);
      CompileEscaped(part[1..], rest);
      LiteralsCons(part, Compile(rest, Some('\\')));
    }
  }

  lemma LiteralsCons(part: string, more: seq<Token>)
    requires part != ""
    ensures Literals(part) + more == [Exactly(part[0])] + (Literals(part[1..]) + more)
  {
  }

  /** A final AnyRun accepts every text. */
  lemma {:induction false} AnyRunMatchesAll(text: string)
    ensures Matches([AnyRun], text)
    decreases |text|
  {
    if text != "" {
      AnyRunMatchesAll(text[1..]);
    } else {
      assert [AnyRun][1..] == [];
    }
  }

  lemma {:induction false} LiteralsMatchPrefix(part: string, more: seq<Token>, text: string)
    ensures Matches(Literals(part) + more, text) <==> SameAt(text, 0, part) && Matches(more, text[|part|..])
    decreases |part|
  {
    var tokens := Literals(part) + more;
    if part == "" {
      assert tokens == more && text[0..] == text;
    } else {
      assert tokens[0] == Exactly(part[0]);
      assert tokens[1..] == Literals(part[1..]) + more;
      if text != "" {
        LiteralsMatchPrefix(part[1..], more, text[1..]);
        if |part| <= |text| {
          assert text[1..][|part| - 1..] == text[|part|..];
        }
        assert SameAt(text, 0, part) <==> Fold(text[0]) == Fold(part[0]) && SameAt(text[1..], 0, part[1..]) by {
          if SameAt(text, 0, part) {
            forall j | 0 <= j < |part[1..]| ensures Fold(text[1..][j]) == Fold(part[1..][j]) {
              assert Fold(text[0 + (j + 1)]) == Fold(part[j + 1]);
            }
          }
          if Fold(text[0]) == Fold(part[0]) && SameAt(text[1..], 0, part[1..]) {
            forall j | 0 <= j < |part| ensures Fold(text[j]) == Fold(part[j]) {
              if j > 0 {
                assert Fold(text[1..][0 + (j - 1)]) == Fold(part[1..][j - 1]);
              }
            }
          }
        }
      }
    }
  }

  /** A leading AnyRun lets the rest of the pattern start anywhere. */
  lemma {:induction false} AnyRunStartsAnywhere(more: seq<Token>, text: string)
    ensures Matches([AnyRun] + more, text) <==> exists start: nat :: start <= |text| && Matches(more, text[start..])
    decreases |text|
  {
    var tokens := [AnyRun] + more;
    assert tokens[0] == AnyRun && tokens[1..] == more;
    assert text[0..] == text;
    if text != "" {
      AnyRunStartsAnywhere(more, text[1..]);
      if Matches(tokens, text[1..]) {
        var start: nat :| start <= |text| - 1 && Matches(more, text[1..][start..]);
        assert text[1..][start..] == text[start + 1..];
      }
      if start: nat :| start <= |text| && Matches(more, text[start..]) {
        if start > 0 {
          assert text[1..][start - 1..] == text[start..];
          assert Matches(tokens, text[1..]);
        }
      }
    }
  }

  /** The filter of the log page: wrapping the escaped text in wildcards selects
      exactly the values that contain the text, ignoring ASCII case. */
  lemma EscapedFilterMeansContains(filter: string, text: string)
    ensures Like(text, "%" + EscapeLike(filter) + "%", Some('\\')) <==> Contains(text, filter)
  {
    var pattern := "%" + EscapeLike(filter) + "%";
    var tail := Literals(filter) + [AnyRun];
    assert pattern[0] == '%' && pattern[1..] == EscapeLike(filter) + "%";
    CompileEscaped(filter, "%");
    assert Compile("%", Some('\\')) == [AnyRun];
    assert Compile(pattern, Some('\\')) == [AnyRun] + tail;
    AnyRunStartsAnywhere(tail, text);
    forall start: nat | start <= |text|
      ensures Matches(tail, text[start..]) <==> SameAt(text, start, filter)
    {
      LiteralsMatchPrefix(filter, [AnyRun], text[start..]);
      if start + |filter| <= |text| {
        AnyRunMatchesAll(text[start..][|filter|..]);
      }
      SameAtShift(text, start, filter);
    }
    if Contains(text, filter) {
      var start: nat :| SameAt(text, start, filter);
      assert Matches(tail, text[start..]);
    }
  }

  lemma SameAtShift(text: string, start: nat, part: string)
    requires start <= |text|
    ensures SameAt(text[start..], 0, part) <==> SameAt(text, start, part)
  {
  }

  // The store's digest patterns.

  /** The WHERE test of the store for a digest-shaped image. */
  predicate SqlDigest(image: string) {
    Like(image, "sha256:%", None) || Like(image, "%@%:%", None)
  }

  ghost predicate ColonAfterAt(image: string) {
    exists i: nat, j: nat :: i < j < |image| && image[i] == '@' && image[j] == ':'
  }

  lemma SqlDigestMeaning(image: string)
    ensures SqlDigest(image) <==> SameAt(image, 0, "sha256:") || ColonAfterAt(image)
  {
    Sha256PatternMeaning(image);
    AtColonPatternMeaning(image);
  }

  lemma CompilePlain(part: string, rest: string)
    requires forall i | 0 <= i < |part| :: part[i] != '%' && part[i] != '_'
    ensures Compile(part + rest, None) == Literals(part) + Compile(rest, None)
  {
    if part == "" {
      assert part + rest == rest;
    } else {
      assert (part + rest)[1..] == part[1..] + rest;
      CompilePlain(part[1..], rest);
      assert Literals(part) == [Exactly(part[0])] + Literals(part[1..]);
    }
  }

  lemma Sha256PatternMeaning(image: string)
    ensures Like(image, "sha256:%", None) <==> SameAt(image, 0, "sha256:")
  {
    assert "sha256:%" == "sha256:" + "%";
    CompilePlain("sha256:", "%");
    assert Compile("%", None) == [AnyRun];
    LiteralsMatchPrefix("sha256:", [AnyRun], image);
    if |image| >= 7 {
      AnyRunMatchesAll(image[7..]);
    }
  }

  lemma RunThenChar(c: char, more: seq<Token>, text: string)
    requires !('a' <= c <= 'z') && !('A' <= c <= 'Z')
    ensures Matches([AnyRun, Exactly(c)] + more, text) <==>
            exists i: nat :: i < |text| && text[i] == c && Matches(more, text[i + 1..])
  {
    var tail := [Exactly(c)] + more;
    assert [AnyRun, Exactly(c)] + more == [AnyRun] + tail;
    AnyRunStartsAnywhere(tail, text);
    assert tail[0] == Exactly(c) && tail[1..] == more;
    forall i: nat | i < |text|
      ensures Matches(tail, text[i..]) <==> text[i] == c && Matches(more, text[i + 1..])
    {
      assert text[i..][1..] == text[i + 1..];
    }
    if i: nat :| i < |text| && text[i] == c && Matches(more, text[i + 1..]) {
      assert Matches(tail, text[i..]);
    }
  }

  lemma RunColonRun(text: string)
    ensures Matches([AnyRun, Exactly(':'), AnyRun], text) <==> ':' in text
  {
    assert [AnyRun, Exactly(':'), AnyRun] == [AnyRun, Exactly(':')] + [AnyRun];
    RunThenChar(':', [AnyRun], text);
    if ':' in text {
      var i: nat :| i < |text| && text[i] == ':';
      AnyRunMatchesAll(text[i + 1..]);
    }
  }

  lemma CompileAtColon()
    ensures Compile("%@%:%", None) == [AnyRun, Exactly('@')] + [AnyRun, Exactly(':'), AnyRun]
  {
  }

  lemma AtColonPatternMeaning(image: string)
    ensures Like(image, "%@%:%", None) <==> ColonAfterAt(image)
  {
    CompileAtColon();
    var tail := [AnyRun, Exactly(':'), AnyRun];
    RunThenChar('@', tail, image);
    if i: nat :| i < |image| && image[i] == '@' && Matches(tail, image[i + 1..]) {
      RunColonRun(image[i + 1..]);
      var k: nat :| k < |image[i + 1..]| && image[i + 1..][k] == ':';
      assert image[i + 1 + k] == ':';
    }
    if ColonAfterAt(image) {
      var i: nat, j: nat :| i < j < |image| && image[i] == '@' && image[j] == ':';
      assert image[i + 1..][j - i - 1] == ':';
      RunColonRun(image[i + 1..]);
    }
  }
}
