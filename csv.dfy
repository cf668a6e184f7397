/** One CSV record, as section 2 of RFC 4180 lays it out, with the choices Go's `encoding/csv`
    makes under its default settings (comma separator, strict quotes, `\n` line ends).

    Writer: a non-empty field is enclosed in double quotes when it contains a comma, a double
    quote, a CR or a LF (RFC 4180 section 2, rules 5 and 6), when it is exactly `\.`, or when it
    starts with a Unicode white space character; inside quotes a double quote is doubled (rule 7)
    and CR and LF are written as they are. Fields are separated by commas and the record ends
    with a line feed.

    Reader: reads the first record of its input. The input is taken line by line, so a CR before
    a line feed is dropped, inside quoted fields too, and so is a CR that ends the input. Blank
    lines before the record are skipped; an empty input is the end-of-input error (`io.EOF`). */
module Csv {
  import opened Wrappers

  const Quote: char := '"'
  const Comma: char := ','
  const LF: char := '\n'
  const CR: char := '\r'

  datatype CsvError =
    | EndOfInput      // io.EOF: no record at all
    | BareQuote       // csv.ErrBareQuote: a quote inside an unquoted field
    | ExtraneousQuote // csv.ErrQuote: a stray quote after a quoted field, or a missing closing quote

  // ----- Writer -----

  /** `unicode.IsSpace`: the characters with Unicode's White_Space property. */
  predicate IsSpace(c: char)
  {
    '\t' <= c <= '\r' || c == ' ' || c == '\U{0085}' || c == '\U{00A0}' || c == '\U{1680}' ||
    '\U{2000}' <= c <= '\U{200A}' || c == '\U{2028}' || c == '\U{2029}' || c == '\U{202F}' ||
    c == '\U{205F}' || c == '\U{3000}'
  }

  /** `fieldNeedsQuotes`: the empty field never; `\.` always; otherwise a field holding a comma,
      a quote, a CR or a LF, or one that starts with white space. */
  predicate NeedsQuotes(f: string)
  {
    f != [] && (f == "\\." || Comma in f || Quote in f || CR in f || LF in f || IsSpace(f[0]))
  }

  /** The body of a quoted field: every double quote doubled. */
  function Escape(f: string): (r: string)
    ensures f != [] ==> |r| > 0 && r[0] == f[0]
  {
    if f == [] then [] else (if f[0] == Quote then [Quote, Quote] else [f[0]]) + Escape(f[1..])
  }

  function QuoteField(f: string): string
  {
    if NeedsQuotes(f) then [Quote] + Escape(f) + [Quote] else f
  }

  /** The fields of one record joined by commas, without the line end. */
  function JoinFields(fs: seq<string>): string
  {
    if fs == [] then ""
    else if |fs| == 1 then QuoteField(fs[0])
    else QuoteField(fs[0]) + [Comma] + JoinFields(fs[1..])
  }

  /** `csv.Writer.Write` followed by `Flush`: the joined fields and a line feed. */
  function WriteRecord(fs: seq<string>): (r: string)
    ensures |r| > 0 && r[|r| - 1] == LF
  {
    JoinFields(fs) + [LF]
  }

  /** Cutting the last character off a written record (marshal.go:242-243) leaves exactly the
      joined fields. */
  lemma StripLineEnd(fs: seq<string>)
    ensures WriteRecord(fs)[..|WriteRecord(fs)| - 1] == JoinFields(fs)
  {
  }

  // ----- Reader -----

  /** Position of the first comma or line feed, or the length when there is none. */
  function FieldEnd(s: string): (i: nat)
    ensures i <= |s|
    ensures forall j :: 0 <= j < i ==> s[j] != Comma && s[j] != LF
    ensures i < |s| ==> s[i] == Comma || s[i] == LF
  {
    if s == [] || s[0] == Comma || s[0] == LF then 0 else 1 + FieldEnd(s[1..])
  }

  /** The rest of a quoted field after its opening quote: its content and the text after the
      closing quote. */
  function ReadQuoted(s: string): (r: Result<(string, string), CsvError>)
    ensures r.Ok? ==> |r.value.1| < |s|
  {
    if s == [] then Err(ExtraneousQuote)
    else if s[0] == Quote then
      if |s| > 1 && s[1] == Quote then
        match ReadQuoted(s[2..])
        case Err(e) => Err(e)
        case Ok(p) => Ok(([Quote] + p.0, p.1))
      else Ok(("", s[1..]))
    else
      match ReadQuoted(s[1..])
      case Err(e) => Err(e)
      case Ok(p) => Ok(([s[0]] + p.0, p.1))
  }

  /** The fields of a record starting at s, up to the first line end outside quotes. */
  function ReadFields(s: string): (r: Result<seq<string>, CsvError>)
    ensures r.Ok? ==> |r.value| >= 1
    decreases |s|
  {
    if |s| > 0 && s[0] == Quote then
      match ReadQuoted(s[1..])
      case Err(e) => Err(e)
      case Ok(p) =>
        var rest := p.1;
        if rest == [] || rest[0] == LF then Ok([p.0])
        else if rest[0] == Comma then
          match ReadFields(rest[1..])
          case Err(e) => Err(e)
          case Ok(fs) => Ok([p.0] + fs)
        else Err(ExtraneousQuote)
    else
      var i := FieldEnd(s);
      if Quote in s[..i] then Err(BareQuote)
      else if i == |s| || s[i] == LF then Ok([s[..i]])
      else
        match ReadFields(s[i + 1..])
        case Err(e) => Err(e)
        case Ok(fs) => Ok([s[..i]] + fs)
  }

  /** The first record of input whose lines are already normalised: blank lines are skipped. */
  function ReadLines(s: string): (r: Result<seq<string>, CsvError>)
    ensures s == [] ==> r == Err(EndOfInput)
    ensures r.Ok? ==> |r.value| >= 1
  {
    if s == [] then Err(EndOfInput)
    else if s[0] == LF then ReadLines(s[1..])
    else ReadFields(s)
  }

  /** Every CR LF pair turned into a LF. */
  function CrLfToLf(s: string): (r: string)
    ensures forall c :: c in r ==> c in s
    ensures |s| > 0 && s[0] != CR ==> |r| > 0 && r[0] == s[0]
  {
    if |s| < 2 then s
    else if s[0] == CR && s[1] == LF then [LF] + CrLfToLf(s[2..])
    else [s[0]] + CrLfToLf(s[1..])
  }

  /** `readLine` applied to every line: a CR that ends the input is dropped, and every line
      ending in CR LF ends in LF instead. */
  function Normalize(s: string): string
  {
    CrLfToLf(if |s| > 0 && s[|s| - 1] == CR then s[..|s| - 1] else s)
  }

  /** `csv.Reader.Read`: the first record of s. */
  function ReadRecord(s: string): (r: Result<seq<string>, CsvError>)
    ensures s == [] ==> r == Err(EndOfInput)
    ensures r.Ok? ==> |r.value| >= 1
  {
    ReadLines(Normalize(s))
  }

  // ----- Line normalisation -----

  /** s holds no CR directly followed by a LF. */
  predicate NoCrLf(s: string)
  {
    forall i :: 0 <= i < |s| - 1 ==> !(s[i] == CR && s[i + 1] == LF)
  }

  lemma {:induction false} CrLfToLfKeeps(s: string)
    requires NoCrLf(s)
    ensures CrLfToLf(s) == s
  {
    if |s| >= 2 {
      assert NoCrLf(s[1..]) by {
        forall i | 0 <= i < |s[1..]| - 1 ensures !(s[1..][i] == CR && s[1..][i + 1] == LF) {
          assert s[1..][i] == s[i + 1] && s[1..][i + 1] == s[i + 2];
        }
      }
      CrLfToLfKeeps(s[1..]);
      assert [s[0]] + s[1..] == s;
    }
  }

  /** Text without CR LF pairs and without a final CR is left as it is. */
  lemma NormalizeKeeps(s: string)
    requires NoCrLf(s) && (s == [] || s[|s| - 1] != CR)
    ensures Normalize(s) == s
  {
    CrLfToLfKeeps(s);
  }

  /** A prefix without CR passes through unchanged. */
  lemma {:induction false} CrLfToLfPrefix(a: string, b: string)
    requires CR !in a
    ensures CrLfToLf(a + b) == a + CrLfToLf(b)
  {
    var s := a + b;
    if |s| < 2 {
      if a != [] {
        assert b == [] && s == a && CrLfToLf(b) == [] && a + [] == a;
      }
    } else if a != [] {
      assert a[0] in a && s[0] == a[0];
      assert CrLfToLf(s) == [s[0]] + CrLfToLf(s[1..]);
      assert s[1..] == a[1..] + b;
      CrLfToLfPrefix(a[1..], b);
      assert [a[0]] + (a[1..] + CrLfToLf(b)) == a + CrLfToLf(b);
    } else {
      assert s == b;
    }
  }

  lemma NormalizePrefix(a: string, b: string)
    requires CR !in a
    ensures Normalize(a + b) == a + Normalize(b)
  {
    if b == [] {
      assert a + b == a + [];
      CrLfToLfPrefix(a, []);
      if a != [] { assert a[|a| - 1] in a; }
    } else {
      var b' := if b[|b| - 1] == CR then b[..|b| - 1] else b;
      assert (if (a + b)[|a + b| - 1] == CR then (a + b)[..|a + b| - 1] else a + b) == a + b';
      CrLfToLfPrefix(a, b');
    }
  }

  lemma NoCrLfAppend(a: string, b: string)
    requires NoCrLf(a) && NoCrLf(b)
    requires a == [] || b == [] || a[|a| - 1] != CR || b[0] != LF
    ensures NoCrLf(a + b)
  {
    var s := a + b;
    forall i | 0 <= i < |s| - 1 ensures !(s[i] == CR && s[i + 1] == LF) {
      if i + 1 < |a| {
        assert s[i] == a[i] && s[i + 1] == a[i + 1];
      } else if i >= |a| {
        assert s[i] == b[i - |a|] && s[i + 1] == b[i + 1 - |a|];
      }
    }
  }

  lemma {:induction false} EscapeNoCrLf(f: string)
    requires NoCrLf(f)
    ensures NoCrLf(Escape(f))
  {
    if f != [] {
      var head := if f[0] == Quote then [Quote, Quote] else [f[0]];
      assert NoCrLf(f[1..]) by {
        forall i | 0 <= i < |f[1..]| - 1 ensures !(f[1..][i] == CR && f[1..][i + 1] == LF) {
          assert f[1..][i] == f[i + 1] && f[1..][i + 1] == f[i + 2];
        }
      }
      EscapeNoCrLf(f[1..]);
      if |f| > 1 { assert f[1..][0] == f[1]; }
      NoCrLfAppend(head, Escape(f[1..]));
    }
  }

  lemma QuoteFieldNoCrLf(f: string)
    requires NoCrLf(f)
    ensures NoCrLf(QuoteField(f))
    ensures QuoteField(f) == [] || QuoteField(f)[|QuoteField(f)| - 1] != CR
  {
    if NeedsQuotes(f) {
      EscapeNoCrLf(f);
      NoCrLfAppend([Quote], Escape(f));
      NoCrLfAppend([Quote] + Escape(f), [Quote]);
    } else if f != [] {
      assert f[|f| - 1] in f;
    }
  }

  /** Joined fields without CR LF pairs hold none and do not end in CR, so reading them skips
      the line normalisation. */
  lemma {:induction false} JoinedNoCrLf(fs: seq<string>)
    requires forall i :: 0 <= i < |fs| ==> NoCrLf(fs[i])
    ensures NoCrLf(JoinFields(fs))
    ensures JoinFields(fs) == [] || JoinFields(fs)[|JoinFields(fs)| - 1] != CR
  {
    if |fs| == 1 {
      QuoteFieldNoCrLf(fs[0]);
    } else if |fs| > 1 {
      var q, rest := QuoteField(fs[0]), JoinFields(fs[1..]);
      QuoteFieldNoCrLf(fs[0]);
      JoinedNoCrLf(fs[1..]);
      NoCrLfAppend(q, [Comma]);
      NoCrLfAppend(q + [Comma], rest);
      assert JoinFields(fs) == q + [Comma] + rest;
    }
  }

  // ----- Round trip -----

  lemma {:induction false} ReadEscaped(f: string, t: string)
    requires t == [] || t[0] != Quote
    ensures ReadQuoted(Escape(f) + [Quote] + t) == Ok((f, t))
  {
    if f == [] {
      assert Escape(f) + [Quote] + t == [Quote] + t;
    } else {
      ReadEscaped(f[1..], t);
      ReadEscapedFirst(f, t);
    }
  }

  /** Reading an escaped field one character at a time: the first character of f (a doubled
      quote, or itself) followed by the rest. */
  lemma ReadEscapedFirst(f: string, t: string)
    requires f != [] && ReadQuoted(Escape(f[1..]) + [Quote] + t) == Ok((f[1..], t))
    ensures ReadQuoted(Escape(f) + [Quote] + t) == Ok((f, t))
  {
    var rest := Escape(f[1..]) + [Quote] + t;
    var head := if f[0] == Quote then [Quote, Quote] else [f[0]];
    assert Escape(f) + [Quote] + t == head + rest;
    ReadAfterHead(head, rest, f[0], f[1..], t);
    assert [f[0]] + f[1..] == f;
  }

  lemma ReadAfterHead(head: string, rest: string, c: char, f: string, t: string)
    requires head == (if c == Quote then [Quote, Quote] else [c])
    requires ReadQuoted(rest) == Ok((f, t))
    ensures ReadQuoted(head + rest) == Ok(([c] + f, t))
  {
    var s := head + rest;
    assert s[|head|..] == rest;
  }

  lemma {:induction false} FieldEndOfPlain(f: string, t: string)
    requires Comma !in f && LF !in f
    requires t == [] || t[0] == Comma || t[0] == LF
    ensures FieldEnd(f + t) == |f|
  {
    if f != [] {
      assert (f + t)[1..] == f[1..] + t;
      FieldEndOfPlain(f[1..], t);
    }
  }

  /** An unquoted field holds none of the characters that would have made the writer quote it. */
  lemma PlainChars(f: string)
    requires !NeedsQuotes(f)
    ensures Comma !in f && Quote !in f && CR !in f && LF !in f
  {
  }

  /** The facts about an unquoted field followed by nothing or by a comma that reading needs. */
  lemma PlainFieldShape(f: string, t: string)
    requires Comma !in f && Quote !in f && LF !in f
    requires t == [] || t[0] == Comma
    ensures FieldEnd(f + t) == |f| && (f + t)[..|f|] == f
    ensures !(|f + t| > 0 && (f + t)[0] == Quote)
  {
    FieldEndOfPlain(f, t);
    assert (f + t)[..|f|] == f;
    if f != [] { assert (f + t)[0] == f[0]; }
  }

  lemma ReadQuotedLast(f: string)
    ensures ReadFields([Quote] + Escape(f) + [Quote]) == Ok([f])
  {
    ReadEscaped(f, []);
    var s := [Quote] + Escape(f) + [Quote];
    assert s[1..] == Escape(f) + [Quote] + [];
  }

  lemma ReadPlainLast(f: string)
    requires Comma !in f && Quote !in f && LF !in f
    ensures ReadFields(f) == Ok([f])
  {
    PlainFieldShape(f, []);
    assert f + [] == f;
  }

  lemma ReadLastField(f: string)
    ensures ReadFields(QuoteField(f)) == Ok([f])
  {
    if NeedsQuotes(f) {
      ReadQuotedLast(f);
    } else {
      PlainChars(f);
      ReadPlainLast(f);
    }
  }

  lemma ReadAfterQuoted(s: string, f: string, t: string, more: seq<string>)
    requires |s| > 0 && s[0] == Quote && ReadQuoted(s[1..]) == Ok((f, t))
    requires |t| > 0 && t[0] == Comma && ReadFields(t[1..]) == Ok(more)
    ensures ReadFields(s) == Ok([f] + more)
  {
  }

  lemma QuotedThenMore(f: string, rest: string, more: seq<string>)
    requires ReadFields(rest) == Ok(more)
    ensures ReadFields([Quote] + Escape(f) + [Quote] + [Comma] + rest) == Ok([f] + more)
  {
    var t := [Comma] + rest;
    var body := Escape(f) + [Quote] + t;
    var s := [Quote] + body;
    assert [Quote] + Escape(f) + [Quote] + [Comma] + rest == s;
    ReadEscaped(f, t);
    assert s[1..] == body;
    assert t[1..] == rest;
    ReadAfterQuoted(s, f, t, more);
  }

  lemma PlainThenMore(f: string, rest: string, more: seq<string>)
    requires Comma !in f && Quote !in f && LF !in f && ReadFields(rest) == Ok(more)
    ensures ReadFields(f + [Comma] + rest) == Ok([f] + more)
  {
    var t := [Comma] + rest;
    var s := f + [Comma] + rest;
    assert s == f + t;
    PlainFieldShape(f, t);
    var i := FieldEnd(s);
    assert i == |f| && i < |s| && s[i] == Comma;
    assert s[i + 1..] == rest;
  }

  lemma ReadFieldThenMore(f: string, rest: string, more: seq<string>)
    requires ReadFields(rest) == Ok(more)
    ensures ReadFields(QuoteField(f) + [Comma] + rest) == Ok([f] + more)
  {
    if NeedsQuotes(f) {
      QuotedThenMore(f, rest, more);
    } else {
      PlainChars(f);
      PlainThenMore(f, rest, more);
    }
  }

  /** A written record never starts with a line feed: a field holding one is quoted. */
  lemma {:induction false} JoinedStart(fs: seq<string>)
    ensures JoinFields(fs) == [] || JoinFields(fs)[0] != LF
  {
    if fs != [] {
      var q := QuoteField(fs[0]);
      assert q == [] || q[0] != LF by {
        if !NeedsQuotes(fs[0]) && fs[0] != [] { PlainChars(fs[0]); assert fs[0][0] in fs[0]; }
      }
      if |fs| > 1 {
        assert JoinFields(fs) == q + [Comma] + JoinFields(fs[1..]);
        assert JoinFields(fs)[0] == (q + [Comma])[0];
      }
    }
  }

  /** The reader inverts the writer: joined fields read back as the same fields, commas, quotes
      and line breaks inside fields included. */
  lemma {:induction false} ReadJoined(fs: seq<string>)
    requires |fs| >= 1
    ensures ReadFields(JoinFields(fs)) == Ok(fs)
  {
    if |fs| == 1 {
      ReadLastField(fs[0]);
      assert JoinFields(fs) == QuoteField(fs[0]);
      assert fs == [fs[0]];
    } else {
      ReadJoined(fs[1..]);
      ReadFieldThenMore(fs[0], JoinFields(fs[1..]), fs[1..]);
      assert [fs[0]] + fs[1..] == fs;
    }
  }

  /** The value the encoder stores for a scalar slice decodes to the same elements, unless that
      value is empty, or an element holds a CR LF pair: an empty slice and the one-element slice
      `[""]` both encode as "", which the reader rejects as end of input, and the reader turns
      CR LF into LF (CrLfNotKept). */
  lemma RoundTrip(fs: seq<string>)
    requires JoinFields(fs) != ""
    requires forall i :: 0 <= i < |fs| ==> NoCrLf(fs[i])
    ensures ReadRecord(JoinFields(fs)) == Ok(fs)
  {
    assert fs != [];
    JoinedNoCrLf(fs);
    NormalizeKeeps(JoinFields(fs));
    JoinedStart(fs);
    ReadJoined(fs);
  }

  lemma EmptyValuesDoNotRoundTrip()
    ensures JoinFields([]) == JoinFields([""]) == ""
    ensures ReadRecord("") == Err(EndOfInput)
  {
  }

  /** A CR LF pair inside a quoted field reads back as a LF. */
  lemma CrLfNotKept()
    ensures ReadRecord(JoinFields(["a\r\nb"])) == Ok(["a\nb"])
  {
    var f, g := "a\r\nb", "a\nb";
    assert f[1] == CR && Quote !in f;
    QuotedWritten(f);
    assert [Quote] + f + [Quote] == [Quote, 'a'] + [CR, LF] + ['b', Quote];
    CrLfInQuotes([Quote, 'a'], ['b', Quote]);
    assert [Quote, 'a'] + [LF] + ['b', Quote] == [Quote] + g + [Quote];
    ReadQuotedAlone(g);
  }

  /** A field without quotes that needs them is written between two quotes. */
  lemma QuotedWritten(f: string)
    requires NeedsQuotes(f) && Quote !in f
    ensures JoinFields([f]) == [Quote] + f + [Quote]
  {
    EscapeWithoutQuotes(f);
  }

  lemma CrLfInQuotes(a: string, b: string)
    requires CR !in a && CR !in b && b != []
    ensures Normalize(a + [CR, LF] + b) == a + [LF] + b
  {
    var t := [CR, LF] + b;
    assert a + [CR, LF] + b == a + t;
    NormalizePrefix(a, t);
    assert b[|b| - 1] in b && t[|t| - 1] == b[|b| - 1];
    assert Normalize(t) == CrLfToLf(t);
    assert t[2..] == b;
    CrLfToLfPrefix(b, []);
    assert b + [] == b;
  }

  /** A field without quotes, between two quotes, is read as itself once lines are normalised. */
  lemma ReadQuotedAlone(g: string)
    requires Quote !in g
    ensures ReadLines([Quote] + g + [Quote]) == Ok([g])
  {
    var s := [Quote] + g + [Quote];
    EscapeWithoutQuotes(g);
    ReadEscaped(g, []);
    assert s[1..] == Escape(g) + [Quote] + [];
  }

  lemma {:induction false} EscapeWithoutQuotes(f: string)
    requires Quote !in f
    ensures Escape(f) == f
  {
    if f != [] {
      EscapeWithoutQuotes(f[1..]);
      assert [f[0]] + f[1..] == f;
    }
  }

  // ----- Malformed input -----

  /** An opening quote never closed reaches the end of the input. */
  lemma {:induction false} QuotelessUnclosed(b: string)
    requires Quote !in b
    ensures ReadQuoted(b) == Err(ExtraneousQuote)
  {
    if b != [] {
      QuotelessUnclosed(b[1..]);
    }
  }

  /** A record whose first field opens a quote that is never closed is an error. */
  lemma UnclosedQuoteRejected(b: string)
    requires Quote !in b
    ensures ReadRecord([Quote] + b) == Err(ExtraneousQuote)
  {
    NormalizePrefix([Quote], b);
    var n := Normalize(b);
    assert Quote !in n by {
      var b' := if |b| > 0 && b[|b| - 1] == CR then b[..|b| - 1] else b;
      assert forall c :: c in b' ==> c in b;
    }
    QuotelessUnclosed(n);
    assert ([Quote] + n)[1..] == n;
  }

  /** A record whose first field is unquoted and holds a quote is an error, whatever follows the
      field. */
  lemma BareQuoteRejected(f: string, t: string)
    requires f != [] && f[0] != Quote && Quote in f
    requires Comma !in f && LF !in f && CR !in f
    requires t == [] || t[0] == Comma || t[0] == LF
    ensures ReadRecord(f + t) == Err(BareQuote)
  {
    NormalizePrefix(f, t);
    var u := Normalize(t);
    assert u == [] || u[0] == Comma || u[0] == LF by {
      if t != [] {
        var t' := if t[|t| - 1] == CR then t[..|t| - 1] else t;
        assert |t'| > 0 && t'[0] == t[0];
      }
    }
    FieldEndOfPlain(f, u);
    assert (f + u)[..|f|] == f;
    assert (f + u)[0] == f[0];
  }

  /** A quoted field followed by anything but a comma, a line end or the end of the input is
      an error. */
  lemma StrayAfterQuoted(g: string, c: char, t: string)
    requires Quote !in g && CR !in g
    requires c != Comma && c != LF && c != CR && c != Quote
    ensures ReadRecord([Quote] + g + [Quote, c] + t) == Err(ExtraneousQuote)
  {
    var a := [Quote] + g + [Quote, c];
    assert CR !in a;
    assert [Quote] + g + [Quote, c] + t == a + t;
    NormalizePrefix(a, t);
    StrayAfterQuotedNormalized(g, c, Normalize(t));
  }

  lemma StrayAfterQuotedNormalized(g: string, c: char, u: string)
    requires Quote !in g
    requires c != Comma && c != LF && c != Quote
    ensures ReadLines([Quote] + g + [Quote, c] + u) == Err(ExtraneousQuote)
  {
    var s := [Quote] + g + [Quote, c] + u;
    EscapeWithoutQuotes(g);
    ReadEscaped(g, [c] + u);
    assert s[1..] == Escape(g) + [Quote] + ([c] + u);
  }
}
