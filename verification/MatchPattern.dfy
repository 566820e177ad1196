/** The match-pattern notation: a leading '^' and a trailing '$' carry the match type. */
module MatchPattern {
  datatype MatchType = Contains | StartsWith | EndsWith | Equals

  datatype Pattern = Pattern(kind: MatchType, value: string)

  const NO_PATTERN := Pattern(Contains, "")

  function TypeOf(starts: bool, ends: bool): MatchType {
    if starts && ends then Equals else if starts then StartsWith else if ends then EndsWith else Contains
  }

  predicate BeginsWith(s: string, c: char) {
    s != [] && s[0] == c
  }

  predicate FinishesWith(s: string, c: char) {
    s != [] && s[|s| - 1] == c
  }

  function ReadPattern(text: string): Pattern {
    var lo := if BeginsWith(text, '^') then 1 else 0;
    var hi := if FinishesWith(text, '$') then |text| - 1 else |text|;
    Pattern(TypeOf(lo == 1, hi < |text|), text[lo..hi])
  }

  function WritePattern(p: Pattern): string {
    match p.kind
    case Contains => p.value
    case Equals => "^" + p.value + "$"
    case EndsWith => p.value + "$"
    case StartsWith => "^" + p.value
  }

  /** Moves a start and a length over the text, as the reader does. */
  method ReadText(text: string) returns (p: Pattern)
    ensures p == ReadPattern(text)
  {
    if text == "" {
      return NO_PATTERN;
    }
    var start, len := 0, |text|;
    var starts, ends := false, false;
    if text[0] == '^' {
      start, len, starts := start + 1, len - 1, true;
    }
    if text[|text| - 1] == '$' {
      len, ends := len - 1, true;
    }
    if len == 0 {
      return Pattern(TypeOf(starts, ends), "");
    }
    p := Pattern(TypeOf(starts, ends), text[start..start + len]);
  }

  /** Edits a string buffer, falling through from equals to ends-with. */
  method WriteText(p: Pattern) returns (buffer: string)
    ensures buffer == WritePattern(p)
  {
    buffer := p.value;
    if p.kind == Equals || p.kind == StartsWith {
      buffer := "^" + buffer;
    }
    if p.kind == Equals || p.kind == EndsWith {
      buffer := buffer + "$";
    }
  }

  /** The documented notation. */
  lemma NotationReads(v: string)
    ensures ReadPattern("^" + v + "$") == Pattern(Equals, v)
    ensures !FinishesWith(v, '$') ==> ReadPattern("^" + v) == Pattern(StartsWith, v)
    ensures !BeginsWith(v, '^') ==> ReadPattern(v + "$") == Pattern(EndsWith, v)
    ensures !BeginsWith(v, '^') && !FinishesWith(v, '$') ==> ReadPattern(v) == Pattern(Contains, v)
  {
    assert ("^" + v + "$")[1..|v| + 1] == v && ("^" + v)[1..] == v && (v + "$")[..|v|] == v;
  }

  /** Writing a just-read pattern gives back the text, whatever the text is. */
  lemma WriteAfterRead(text: string)
    ensures WritePattern(ReadPattern(text)) == text
  {
    var p := ReadPattern(text);
    if BeginsWith(text, '^') {
      assert text == "^" + text[1..];
    }
    if FinishesWith(text, '$') {
      assert text == text[..|text| - 1] + "$";
    }
  }

  /** The values whose spelling is not mistaken for another match type. */
  predicate CodecSafe(p: Pattern) {
    match p.kind
    case Equals => true
    case StartsWith => !FinishesWith(p.value, '$')
    case EndsWith => !BeginsWith(p.value, '^')
    case Contains => !BeginsWith(p.value, '^') && !FinishesWith(p.value, '$')
  }

  /** Reading yields safe patterns only. */
  lemma ReadIsSafe(text: string)
    ensures CodecSafe(ReadPattern(text))
  {
  }

  /** Reading a just-written pattern gives it back exactly for the safe values. */
  lemma ReadAfterWrite(p: Pattern)
    ensures ReadPattern(WritePattern(p)) == p <==> CodecSafe(p)
  {
    var text := WritePattern(p);
    match p.kind
    case Equals =>
      assert text[0] == '^' && text[|text| - 1] == '$' && text[1..|text| - 1] == p.value;
    case StartsWith =>
      assert text[0] == '^' && text[1..] == p.value;
    case EndsWith =>
      assert text[|text| - 1] == '$' && text[..|text| - 1] == p.value;
    case Contains =>
  }
}
