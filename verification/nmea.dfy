/** The receiver's text: characters gathered into sentences, and a sentence cut into fields. */
module Nmea {
  import opened Octets

  const NMEA_MAX_SIZE := 128
  const MAX_NMEA_TOKENS := 24

  // ----- Sentences -----

  datatype Reader = Reader(line: string, skipping: bool)

  function Next(r: Reader, c: char): Reader {
    if r.skipping then r.(skipping := c != '\n')
    else if |r.line| >= NMEA_MAX_SIZE then Reader("", true)
    else if c == '\n' then Reader("", false)
    else Reader(r.line + [c], false)
  }

  function Emit(r: Reader, c: char): Option<string> {
    if !r.skipping && |r.line| < NMEA_MAX_SIZE && c == '\n' then Some(r.line + [c]) else None
  }

  /** The sentences delivered while `s` is read. */
  function Sentences(r: Reader, s: string): seq<string>
    decreases |s|
  {
    if s == [] then []
    else
      var rest := Sentences(Next(r, s[0]), s[1..]);
      match Emit(r, s[0])
      case Some(sentence) => [sentence] + rest
      case None => rest
  }

  /** The reader's state behind `s`. */
  function After(r: Reader, s: string): Reader
    decreases |s|
  {
    if s == [] then r else After(Next(r, s[0]), s[1..])
  }

  /** Reading in two parts is reading the whole. */
  lemma {:induction false} SentencesAppend(r: Reader, a: string, b: string)
    ensures Sentences(r, a + b) == Sentences(r, a) + Sentences(After(r, a), b)
    ensures After(r, a + b) == After(After(r, a), b)
    decreases |a|
  {
    hide Next, Emit;
    if a == [] {
      assert a + b == b;
    } else {
      assert (a + b)[1..] == a[1..] + b;
      SentencesAppend(Next(r, a[0]), a[1..], b);
    }
  }

  class NmeaReader {
    const buf: array<char>
    var pos: nat
    var overflow: bool

    ghost predicate Valid()
      reads this
    {
      buf.Length == NMEA_MAX_SIZE + 1 && pos <= NMEA_MAX_SIZE && (overflow ==> pos == 0)
    }

    ghost function Abs(): Reader
      requires Valid()
      reads this, buf
    {
      Reader(buf[..pos], overflow)
    }

    constructor ()
      ensures Valid() && fresh(buf) && Abs() == Reader("", false)
    {
      buf := new char[NMEA_MAX_SIZE + 1](_ => ' ');
      pos, overflow := 0, false;
    }

    /** Takes one character; at the end of a line the sentence goes to the parser and the callback. */
    method AddC(c: char) returns (sentence: Option<string>)
      requires Valid()
      modifies this, buf
      ensures Valid()
      ensures Abs() == Next(old(Abs()), c) && sentence == Emit(old(Abs()), c)
    {
      sentence := None;
      if overflow {
        overflow := c != '\n';
        return;
      }
      if pos >= NMEA_MAX_SIZE {
        overflow := true;
        pos := 0;
        return;
      }
      buf[pos] := c;
      pos := pos + 1;
      assert buf[..pos] == old(buf[..pos]) + [c];
      if c == '\n' {
        sentence := Some(buf[..pos]);
        pos := 0;
      }
    }

    /** Everything one read of the device returned. A sentence begun stays begun for the next read. */
    method AddAll(s: string) returns (sentences: seq<string>)
      requires Valid()
      modifies this, buf
      ensures Valid() && sentences == Sentences(old(Abs()), s) && Abs() == After(old(Abs()), s)
    {
      hide Next, Emit;
      sentences := [];
      for i := 0 to |s|
        invariant Valid() && sentences + Sentences(Abs(), s[i..]) == Sentences(old(Abs()), s)
        invariant After(Abs(), s[i..]) == After(old(Abs()), s)
      {
        var sentence := AddC(s[i]);
        if sentence.Some? {
          sentences := sentences + [sentence.value];
        }
      }
    }

    /** One read after the other. */
    method AddReads(parts: seq<string>) returns (sentences: seq<string>)
      requires Valid()
      modifies this, buf
      ensures Valid() && sentences == ReadByRead(old(Abs()), parts)
    {
      hide Sentences, After;
      sentences := [];
      ghost var start := Abs();
      for i := 0 to |parts|
        invariant Valid() && sentences + ReadByRead(Abs(), parts[i..]) == ReadByRead(start, parts)
      {
        assert parts[i..][1..] == parts[i + 1..];
        var more := AddAll(parts[i]);
        sentences := sentences + more;
      }
    }
  }

  lemma NothingRead(r: Reader)
    ensures Sentences(r, []) == [] && After(r, []) == r
  {}

  /** The position of the first `c`, or the length if there is none. */
  function Find(s: string, c: char): (k: nat)
    ensures k <= |s| && c !in s[..k] && (k < |s| ==> s[k] == c)
  {
    if s == [] || s[0] == c then 0
    else
      var k := Find(s[1..], c) + 1;
      assert s[..k] == [s[0]] + s[1..][..k - 1];
      k
  }

  /** The newline-terminated lines of `s`, without their newlines. */
  function Lines(s: string): seq<string>
    decreases |s|
  {
    var k := Find(s, '\n');
    if k == |s| then [] else [s[..k]] + Lines(s[k + 1..])
  }

  /** A line is lost if it is too long, or if it stands behind an unskipped line of exactly 128 characters. */
  function Delivered(skip: bool, lines: seq<string>): seq<string>
    decreases |lines|
  {
    if lines == [] then []
    else if skip then Delivered(false, lines[1..])
    else if |lines[0]| < 128 then [lines[0] + "\n"] + Delivered(false, lines[1..])
    else Delivered(|lines[0]| == 128, lines[1..])
  }

  /** What successive reads deliver, each from where the one before left the reader. */
  function ReadByRead(r: Reader, parts: seq<string>): seq<string>
    decreases |parts|
  {
    if parts == [] then [] else Sentences(r, parts[0]) + ReadByRead(After(r, parts[0]), parts[1..])
  }

  lemma {:induction false} ReadsAreOne(r: Reader, parts: seq<string>)
    ensures ReadByRead(r, parts) == Sentences(r, Concat(parts))
    decreases |parts|
  {
    hide Sentences, After;
    if parts == [] {
      NothingRead(r);
    } else {
      SentencesAppend(r, parts[0], Concat(parts[1..]));
      ReadsAreOne(After(r, parts[0]), parts[1..]);
    }
  }

  /** However a text is cut into reads, the sentences of the successive reads join up to the delivered lines of it all. */
  lemma ReadsJoinUp(parts: seq<string>)
    ensures ReadByRead(Reader("", false), parts) == Delivered(false, Lines(Concat(parts)))
  {
    ReadsAreOne(Reader("", false), parts);
    ReaderDeliversLines(false, Concat(parts));
  }

  lemma {:induction false} InsideLine(r: Reader, s: string, rest: string)
    requires '\n' !in s && |r.line| <= NMEA_MAX_SIZE && (r.skipping ==> r.line == "")
    ensures Sentences(r, s + rest)
            == Sentences(if r.skipping || |r.line| + |s| > NMEA_MAX_SIZE then Reader("", true) else Reader(r.line + s, false), rest)
    decreases |s|
  {
    if s == "" {
      assert s + rest == rest && r.line + s == r.line;
    } else {
      assert (s + rest)[1..] == s[1..] + rest;
      InsideLine(Next(r, s[0]), s[1..], rest);
      assert r.line + [s[0]] + s[1..] == r.line + s;
    }
  }

  lemma WholeLine(skip: bool, s: string, rest: string)
    requires '\n' !in s
    ensures var long := |s| > NMEA_MAX_SIZE;
      Sentences(Reader("", skip), s + "\n" + rest)
      == if skip || long then Sentences(Reader("", false), rest)
         else if |s| == NMEA_MAX_SIZE then Sentences(Reader("", true), rest)
         else [s + "\n"] + Sentences(Reader("", false), rest)
  {
    InsideLine(Reader("", skip), s, "\n" + rest);
    assert s + "\n" + rest == s + ("\n" + rest);
    assert ("\n" + rest)[1..] == rest;
    assert "" + s == s;
  }

  /** On every stream the reader delivers exactly the lines that the line rule lets through, in order. */
  lemma {:induction false} ReaderDeliversLines(skip: bool, s: string)
    ensures Sentences(Reader("", skip), s) == Delivered(skip, Lines(s))
    decreases |s|
  {
    var k := Find(s, '\n');
    if k == |s| {
      assert s[..k] == s && s + "" == s;
      InsideLine(Reader("", skip), s, "");
    } else {
      var rest := s[k + 1..];
      assert s == s[..k] + "\n" + rest;
      WholeLine(skip, s[..k], rest);
      ReaderDeliversLines(false, rest);
      ReaderDeliversLines(true, rest);
      assert Lines(s)[1..] == Lines(rest);
    }
  }

  /** The lines short enough for the buffer, newline and all. */
  function Fitting(lines: seq<string>): seq<string> {
    if lines == [] then []
    else (if |lines[0]| < 128 then [lines[0] + "\n"] else []) + Fitting(lines[1..])
  }

  /** Line `i` is skipped because the line before it overflowed on its very newline. */
  predicate Skipped(lines: seq<string>, i: nat)
    requires i < |lines|
  {
    i > 0 && |lines[i - 1]| == 128 && !Skipped(lines, i - 1)
  }

  /** The number of fitting lines that are skipped. */
  function Lost(skip: bool, lines: seq<string>): nat
    decreases |lines|
  {
    if lines == [] then 0
    else
      (if skip && |lines[0]| < 128 then 1 else 0)
      + Lost(!skip && |lines[0]| == 128, lines[1..])
  }

  lemma {:induction false} LostMakesTheDifference(skip: bool, lines: seq<string>)
    ensures |Delivered(skip, lines)| + Lost(skip, lines) == |Fitting(lines)|
    ensures Lost(skip, lines) == 0 ==> Delivered(skip, lines) == Fitting(lines)
    decreases |lines|
  {
    if lines != [] {
      LostMakesTheDifference(!skip && |lines[0]| == 128, lines[1..]);
    }
  }

  lemma {:induction false} LostFrom(lines: seq<string>, i: nat)
    requires i <= |lines|
    ensures Lost(i < |lines| && Skipped(lines, i), lines[i..]) == 0
            <==> forall j :: i <= j < |lines| && Skipped(lines, j) ==> |lines[j]| >= 128
    decreases |lines| - i
  {
    if i < |lines| {
      LostFrom(lines, i + 1);
      assert lines[i..][1..] == lines[i + 1..];
      if i + 1 == |lines| {
        assert lines[i + 1..] == [];
      }
    }
  }

  /** Every fitting line is delivered exactly when none of them stands behind an unskipped line of 128 characters. */
  lemma AllFittingDeliveredIff(s: string)
    ensures Sentences(Reader("", false), s) == Fitting(Lines(s))
            <==> forall i :: 0 <= i < |Lines(s)| && Skipped(Lines(s), i) ==> |Lines(s)[i]| >= 128
  {
    var lines := Lines(s);
    ReaderDeliversLines(false, s);
    LostMakesTheDifference(false, lines);
    LostFrom(lines, 0);
    assert lines[0..] == lines;
  }

  // ----- Fields -----

  /** Start and end of a field in the sentence. */
  datatype Token = Token(p: nat, end: nat)

  /** The comma-separated fields of `b`; an empty one behind a final comma is not counted. */
  function Fields(b: string): seq<string>
    decreases |b|
  {
    if b == "" then []
    else
      var k := Find(b, ',');
      [b[..k]] + Fields(if k < |b| then b[k + 1..] else "")
  }

  function Join(fields: seq<string>): string {
    if |fields| == 0 then "" else if |fields| == 1 then fields[0] else fields[0] + "," + Join(fields[1..])
  }

  lemma HeadAndTail<T>(x: T, xs: seq<T>)
    ensures ([x] + xs)[0] == x && ([x] + xs)[1..] == xs
  {}

  /** The first field, and the fields of what is behind its comma. */
  lemma FieldsStep(b: string)
    requires b != ""
    ensures var k := Find(b, ',');
      var rest := if k < |b| then b[k + 1..] else "";
      Fields(b) != [] && Fields(b)[0] == b[..k] && Fields(b)[1..] == Fields(rest)
  {
    hide Find;
    var k := Find(b, ',');
    HeadAndTail(b[..k], Fields(if k < |b| then b[k + 1..] else ""));
  }

  function FinalComma(b: string): string {
    if b != "" && b[|b| - 1] == ',' then "," else ""
  }

  lemma {:induction false} FieldsAreCommaFree(b: string)
    ensures forall i :: 0 <= i < |Fields(b)| ==> ',' !in Fields(b)[i]
    decreases |b|
  {
    if b != "" {
      FieldsStep(b);
      var k, fields := Find(b, ','), Fields(b);
      hide Fields, Find;
      FieldsAreCommaFree(if k < |b| then b[k + 1..] else "");
      forall i | 0 <= i < |fields|
        ensures ',' !in fields[i]
      {
        assert i > 0 ==> fields[i] == fields[1..][i - 1];
      }
    } else {
      NoFields();
    }
  }

  lemma LastField(b: string)
    requires b != "" && Find(b, ',') == |b|
    ensures Fields(b) == [b] && FinalComma(b) == ""
  {
    assert b[..|b|] == b;
  }

  lemma CutAt(b: string, k: nat)
    requires k < |b| && b[k] == ','
    ensures b == b[..k] + "," + b[k + 1..]
    ensures FinalComma(b) == if k + 1 == |b| then "," else FinalComma(b[k + 1..])
  {}

  lemma FieldBeforeComma(b: string)
    requires Find(b, ',') < |b|
    ensures var k := Find(b, ',');
      Fields(b) == [b[..k]] + Fields(b[k + 1..]) && (b[k + 1..] != "" ==> Fields(b[k + 1..]) != [])
  {
    hide Find;
  }

  lemma JoinMore(first: string, more: seq<string>)
    ensures Join([first] + more) == if more == [] then first else first + "," + Join(more)
  {
    assert ([first] + more)[1..] == more;
  }

  /** The fields hold no comma and join up to the text, but for one final comma. */
  lemma {:induction false} FieldsJoinUp(b: string)
    ensures forall i :: 0 <= i < |Fields(b)| ==> ',' !in Fields(b)[i]
    ensures b == Join(Fields(b)) + FinalComma(b)
    decreases |b|
  {
    FieldsAreCommaFree(b);
    NoFields();
    var k := Find(b, ',');
    if b == "" {
    } else if k == |b| {
      LastField(b);
    } else {
      var first, rest := b[..k], b[k + 1..];
      FieldBeforeComma(b);
      CutAt(b, k);
      FieldsJoinUp(rest);
      JoinMore(first, Fields(rest));
      hide Fields, Find, FinalComma, Join;
      if rest != "" {
        JoinThree(first + ",", Join(Fields(rest)), FinalComma(rest));
      }
    }
  }

  /** Where the text between `$` and checksum or line end begins and ends. */
  function Bounds(s: string): (r: (nat, nat))
    ensures r.0 <= r.1 <= |s|
  {
    var p := if |s| > 0 && s[0] == '$' then 1 else 0;
    var e1 := if |s| > p && s[|s| - 1] == '\n' then |s| - 1 else |s|;
    var e2 := if e1 < |s| && e1 > p && s[e1 - 1] == '\r' then e1 - 1 else e1;
    var e3 := if e2 >= p + 3 && s[e2 - 3] == '*' then e2 - 3 else e2;
    (p, e3)
  }

  function Stripped(s: string): string {
    s[Bounds(s).0..Bounds(s).1]
  }

  /** A line end, of which the carriage return may be missing, or all. */
  predicate LineEnd(end: string) {
    end == "" || end == "\n" || end == "\r\n"
  }

  function Dollar(dollar: bool): string {
    if dollar then "$" else ""
  }

  /** The text cannot be taken for a dollar in front. */
  predicate FrontKept(dollar: bool, text: string) {
    dollar || text == "" || text[0] != '$'
  }

  /** Nor its last character for a part of the line end. */
  predicate BackKept(text: string, end: string) {
    || text == ""
    || (end == "" && text[|text| - 1] != '\n')
    || (end == "\n" && text[|text| - 1] != '\r')
    || end == "\r\n"
  }

  /** What is between dollar and line end is cut off its checksum only. */
  lemma StrippedFrame(dollar: bool, text: string, end: string)
    requires LineEnd(end) && FrontKept(dollar, text) && BackKept(text, end)
    ensures Stripped(Dollar(dollar) + text + end)
            == if |text| >= 3 && text[|text| - 3] == '*' then text[..|text| - 3] else text
  {
    var s := Dollar(dollar) + text + end;
    var p := |Dollar(dollar)|;
    assert s[p..p + |text|] == text;
    assert end != "" ==> s[|s| - 1] == '\n';
    assert end == "\r\n" ==> s[|s| - 2] == '\r';
    assert text != "" ==> s[p + |text| - 1] == text[|text| - 1] && s[p] == text[0];
    assert |text| >= 3 ==> s[p + |text| - 3] == text[|text| - 3];
    StripsTo(s, p, p + |text|, end);
    if |text| >= 3 && text[|text| - 3] == '*' {
      assert s[p..p + |text| - 3] == text[..|text| - 3];
    }
  }

  lemma StripsTo(s: string, p: nat, e: nat, end: string)
    requires p <= e <= |s| && e + |end| == |s| && p <= 1 && s[e..] == end && LineEnd(end)
    requires if p == 1 then s[0] == '$' else e == 0 || s[0] != '$'
    requires end == "" && e > p ==> s[e - 1] != '\n'
    requires end == "\n" && e > p ==> s[e - 1] != '\r'
    ensures Stripped(s) == s[p..if e >= p + 3 && s[e - 3] == '*' then e - 3 else e]
  {
    assert end != "" ==> s[|s| - 1] == '\n' by { if end != "" { assert s[e..][|end| - 1] == '\n'; } }
    assert end == "\r\n" ==> s[e] == '\r' by { if end == "\r\n" { assert s[e..][0] == '\r'; } }
    assert end == "\n" ==> s[e] == '\n' by { if end == "\n" { assert s[e..][0] == '\n'; } }
  }

  /** Where the text or its line end can be taken for something else, more is cut off. */
  lemma StrippedShorter(dollar: bool, text: string, end: string)
    requires LineEnd(end) && text != "" && !(FrontKept(dollar, text) && BackKept(text, end))
    ensures |Stripped(Dollar(dollar) + text + end)| < |text|
  {
    var s := Dollar(dollar) + text + end;
    var p := |Dollar(dollar)|;
    assert text == s[p..p + |text|];
    assert s[p] == text[0] && s[p + |text| - 1] == text[|text| - 1];
    assert end != "" ==> s[|s| - 1] == '\n';
  }

  /**
   With a checksum: the text is what is left, for every text, with or without dollar and carriage return, exactly
   unless it begins like the missing dollar or the checksum ends like the missing line end.
   */
  lemma StrippedWithChecksum(dollar: bool, body: string, h1: char, h2: char, end: string)
    requires LineEnd(end)
    ensures Stripped(Dollar(dollar) + body + ['*', h1, h2] + end) == body
            <==> FrontKept(dollar, body) && BackKept([h2], end)
  {
    var text := body + ['*', h1, h2];
    assert Dollar(dollar) + body + ['*', h1, h2] + end == Dollar(dollar) + text + end;
    assert text[|text| - 3] == '*' && text[..|text| - 3] == body && text[|text| - 1] == h2;
    assert FrontKept(dollar, text) == FrontKept(dollar, body);
    assert BackKept(text, end) == BackKept([h2], end);
    if FrontKept(dollar, text) && BackKept(text, end) {
      StrippedFrame(dollar, text, end);
    } else {
      CutFurther(dollar, body, h1, h2, end);
    }
  }

  lemma CutFurther(dollar: bool, body: string, h1: char, h2: char, end: string)
    requires LineEnd(end) && !(FrontKept(dollar, body) && BackKept([h2], end))
    ensures Stripped(Dollar(dollar) + body + ['*', h1, h2] + end) != body
  {
    var s := Dollar(dollar) + body + ['*', h1, h2] + end;
    var p, n := |Dollar(dollar)|, |body|;
    assert s[p..p + n] == body && s[p + n] == '*' && s[p + n + 1] == h1 && s[p + n + 2] == h2;
    assert s[p + n + 3..] == end;
    if BackKept([h2], end) {
      EndsAt(s, p, p + n + 3, end);
    } else {
      EndsSooner(s, p, p + n + 3, end);
    }
    assert n > 0 ==> s[p] == body[0];
    assert Bounds(s).0 == if FrontKept(dollar, body) then p else p + 1;
    if Stripped(s) == body {
      assert Bounds(s) == (1, n + 1) && p == 0;
      AllAlike(s, n);
    }
  }

  /** A text that is the same one place further on has one character throughout. */
  lemma {:induction false} AllAlike(s: string, n: nat)
    requires n < |s| && s[1..n + 1] == s[..n]
    ensures s[n] == s[0]
    decreases n
  {
    if n > 0 {
      assert s[n] == s[1..n + 1][n - 1] == s[..n][n - 1];
      assert s[1..n] == s[1..n + 1][..n - 1] == s[..n][..n - 1] == s[..n - 1];
      AllAlike(s, n - 1);
    }
  }

  /** Where the end is cut off, when it cannot be mistaken. */
  lemma EndsAt(s: string, p: nat, e: nat, end: string)
    requires LineEnd(end) && p <= 1 && p + 3 <= e <= |s| && s[e..] == end && s[e - 3] == '*'
    requires (end == "" ==> s[e - 1] != '\n') && (end == "\n" ==> s[e - 1] != '\r')
    ensures Bounds(s).1 == e - 3 || (Bounds(s).0 > e - 3 && Bounds(s).1 <= e)
  {
    assert |s| == e + |end| && forall i :: 0 <= i < |end| ==> s[e + i] == end[i];
  }

  /** And when its last character is taken for a part of the line end. */
  lemma EndsSooner(s: string, p: nat, e: nat, end: string)
    requires LineEnd(end) && p <= 1 && p + 3 <= e <= |s| && s[e..] == end
    requires (end == "" && s[e - 1] == '\n') || (end == "\n" && s[e - 1] == '\r')
    ensures Bounds(s).1 in {e - 1, e - 2, e - 4, e - 5}
  {
    assert |s| == e + |end| && forall i :: 0 <= i < |end| ==> s[e + i] == end[i];
  }

  /** Without one too, exactly unless the text begins or ends like what is missing, or ends like a checksum. */
  lemma StrippedWithoutChecksum(dollar: bool, body: string, end: string)
    requires LineEnd(end)
    ensures Stripped(Dollar(dollar) + body + end) == body
            <==> && FrontKept(dollar, body) && BackKept(body, end)
                 && !(|body| >= 3 && body[|body| - 3] == '*')
  {
    if FrontKept(dollar, body) && BackKept(body, end) {
      StrippedFrame(dollar, body, end);
    } else {
      StrippedShorter(dollar, body, end);
    }
  }

  lemma NoFields()
    ensures Fields("") == []
  {}

  class NmeaTokenizer {
    const text: string
    var count: nat
    const tokens: array<Token>

    ghost predicate Valid()
      reads this, tokens
    {
      && tokens.Length == MAX_NMEA_TOKENS && count <= MAX_NMEA_TOKENS
      && forall i :: 0 <= i < count ==> tokens[i].p <= tokens[i].end <= |text|
    }

    ghost function Field(i: nat): string
      requires Valid() && i < count
      reads this, tokens
    {
      text[tokens[i].p..tokens[i].end]
    }

    constructor (text: string)
      ensures Valid() && fresh(tokens) && this.text == text && count == 0
    {
      this.text := text;
      tokens := new Token[MAX_NMEA_TOKENS](_ => Token(0, 0));
      count := 0;
    }

    /** Where the text to be split begins and ends. */
    method Strip() returns (p: nat, end: nat)
      ensures (p, end) == Bounds(text)
    {
      p, end := 0, |text|;
      if p < end && text[p] == '$' {
        p := p + 1;
      }
      if end > p && text[end - 1] == '\n' {
        end := end - 1;
        if end > p && text[end - 1] == '\r' {
          end := end - 1;
        }
      }
      if end >= p + 3 && text[end - 3] == '*' {
        end := end - 3;
      }
    }

    /** The next field of `text[p..end]`, and what is left behind it. */
    lemma NextField(p: nat, end: nat, q: nat)
      requires p < end <= |text| && q == p + Find(text[p..end], ',')
      ensures p <= q <= end && Fields(text[p..end]) != [] && Fields(text[p..end])[0] == text[p..q]
      ensures Fields(text[p..end])[1..] == Fields(text[if q < end then q + 1 else q..end])
    {
      hide Fields, Find;
      var b := text[p..end];
      FieldsStep(b);
      assert b[..q - p] == text[p..q];
      assert q < end ==> b[q - p + 1..] == text[q + 1..end];
      assert q == end ==> text[q..end] == "";
    }

    /** Finds the fields of the sentence, 24 at most. */
    method Init()
      requires Valid()
      modifies this`count, tokens
      ensures Valid()
      ensures var fields := Fields(Stripped(text));
        && count == (if |fields| < 24 then |fields| else 24)
        && forall i :: 0 <= i < count ==> Field(i) == fields[i]
    {
      hide Fields, Find;
      var p, end := Strip();
      count := 0;
      ghost var fields, seen := Fields(text[p..end]), 0;
      NoFields();
      while p < end
        invariant p <= end <= |text| && Valid()
        invariant seen <= |fields| && Fields(text[p..end]) == fields[seen..]
        invariant count == if seen < MAX_NMEA_TOKENS then seen else MAX_NMEA_TOKENS
        invariant forall i :: 0 <= i < count ==> Field(i) == fields[i]
        decreases end - p
      {
        var q := p + Find(text[p..end], ',');
        NextField(p, end, q);
        if q >= p {
          if count < MAX_NMEA_TOKENS {
            tokens[count] := Token(p, q);
            count := count + 1;
          }
        }
        seen := seen + 1;
        if q < end {
          q := q + 1;
        }
        p := q;
      }
      assert text[p..end] == "";
    }

    /** The field with this index, or an empty one. */
    method Get(index: int) returns (field: string)
      requires Valid()
      ensures field == if 0 <= index < count then Field(index) else ""
    {
      if index < 0 || index >= count {
        return "";
      }
      return text[tokens[index].p..tokens[index].end];
    }
  }
}
