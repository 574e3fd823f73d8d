/** The eRuby compiler: a template becomes a Ruby program that prints its text and runs the code
    in it (eruby/eruby_lib.c). Templates without carriage returns and without a #! line. */
module Eruby {
  import opened Wrappers

  datatype Kind = Stmt | Expr | Comment

  /** What a template consists of. `Open` is <%%, which stands for <%; `Percent` is %% at the
      beginning of a line, which stands for %. */
  datatype Piece = Char(c: char) | Open | Percent | Program(kind: Kind, raw: string) | Line(text: string)

  // ----- what a template means -----

  /** An end delimiter stands at `e`: %> that no further % comes before. */
  predicate EndsAt(body: string, e: nat) {
    e + 1 < |body| && body[e] == '%' && body[e + 1] == '>' && !(e > 0 && body[e - 1] == '%')
  }

  function EndOf(body: string, from: nat): (r: Option<nat>)
    ensures r.Some? ==> from <= r.value && EndsAt(body, r.value)
    decreases |body| - from
  {
    if from + 1 >= |body| then None
    else if EndsAt(body, from) then Some(from)
    else EndOf(body, from + 1)
  }

  function LineEnd(t: string, from: nat): (r: Option<nat>)
    ensures r.Some? ==> from <= r.value < |t| && t[r.value] == '\n'
    decreases |t| - from
  {
    if from >= |t| then None else if t[from] == '\n' then Some(from) else LineEnd(t, from + 1)
  }

  function KindOf(c: char): Kind {
    if c == '#' then Comment else if c == '=' then Expr else Stmt
  }

  /** Where the code begins: behind <% or behind <%= and <%#. */
  function BodyStart(c: char): nat {
    if c == '#' || c == '=' then 3 else 2
  }

  function Then(p: Piece, rest: Option<seq<Piece>>): Option<seq<Piece>> {
    if rest.Some? then Some([p] + rest.value) else None
  }

  /** The pieces of a template; nothing when a delimiter or a line end is missing. */
  function Parse(t: string, bol: bool): Option<seq<Piece>>
    decreases |t|
  {
    if t == "" then Some([])
    else if |t| >= 2 && t[0] == '<' && t[1] == '%' then
      if |t| == 2 then None
      else if t[2] == '%' then Then(Open, Parse(t[3..], false))
      else
        var body := t[BodyStart(t[2])..];
        var e := EndOf(body, 0);
        if e.None? then None else Then(Program(KindOf(t[2]), body[..e.value]), Parse(body[e.value + 2..], false))
    else if t[0] == '%' && bol then
      if |t| == 1 then None
      else if t[1] == '%' then Then(Percent, Parse(t[2..], false))
      else
        var e := LineEnd(t, 1);
        if e.None? then None else Then(Line(t[1..e.value]), Parse(t[e.value + 1..], true))
    else Then(Char(t[0]), Parse(t[1..], t[0] == '\n'))
  }

  /** The template text of one piece. */
  function SourceOf(p: Piece): string {
    match p
    case Char(c) => [c]
    case Open => "<%%"
    case Percent => "%%"
    case Program(kind, raw) =>
      "<%" + (match kind case Stmt => "" case Expr => "=" case Comment => "#") + raw + "%>"
    case Line(text) => "%" + text + "\n"
  }

  /** The template that the pieces came from. */
  function Source(ps: seq<Piece>): string {
    if ps == [] then "" else SourceOf(ps[0]) + Source(ps[1..])
  }

  lemma SourceCons(p: Piece, ps: seq<Piece>)
    ensures Source([p] + ps) == SourceOf(p) + Source(ps)
  {
    assert ([p] + ps)[1..] == ps;
  }

  lemma ProgramSource(t: string, e: nat)
    requires |t| > 2 && t[0] == '<' && t[1] == '%' && e + 1 < |t[BodyStart(t[2])..]| && EndsAt(t[BodyStart(t[2])..], e)
    ensures var body := t[BodyStart(t[2])..]; t == SourceOf(Program(KindOf(t[2]), body[..e])) + body[e + 2..]
  {
    hide SourceOf, EndsAt;
    var body := t[BodyStart(t[2])..];
    CutAt(body, e);
    TagSource(t);
    Rejoined(t[..BodyStart(t[2])], body[..e], body[e + 2..]);
  }

  lemma CutAt(body: string, e: nat)
    requires EndsAt(body, e)
    ensures body == body[..e] + "%>" + body[e + 2..]
  {
  }

  lemma TagSource(t: string)
    requires |t| > 2 && t[0] == '<' && t[1] == '%'
    ensures t == t[..BodyStart(t[2])] + t[BodyStart(t[2])..]
    ensures forall raw :: SourceOf(Program(KindOf(t[2]), raw)) == t[..BodyStart(t[2])] + raw + "%>"
  {
    assert "<%" + "=" == "<%=" && "<%" + "#" == "<%#" && "<%" + "" == "<%";
  }

  lemma Rejoined(a: string, raw: string, rest: string)
    ensures a + (raw + "%>" + rest) == a + raw + "%>" + rest
  {
  }

  /** Parsing loses nothing. */
  lemma {:induction false} ParseSource(t: string, bol: bool)
    requires Parse(t, bol).Some?
    ensures Source(Parse(t, bol).value) == t
    decreases |t|
  {
    hide Source, SourceOf, EndOf, LineEnd, EndsAt;
    if t == "" {
      NoSource();
    } else if |t| >= 2 && t[0] == '<' && t[1] == '%' {
      if t[2] == '%' {
        ParseSource(t[3..], false);
        SourceCons(Open, Parse(t[3..], false).value);
        PieceSources();
        assert t == "<%%" + t[3..];
      } else {
        var body := t[BodyStart(t[2])..];
        var e := EndOf(body, 0).value;
        EndInside(body, e);
        ParseSource(body[e + 2..], false);
        SourceCons(Program(KindOf(t[2]), body[..e]), Parse(body[e + 2..], false).value);
        ProgramSource(t, e);
      }
    } else if t[0] == '%' && bol {
      LineSource(t);
      PieceSources();
      if t[1] == '%' {
        ParseSource(t[2..], false);
        SourceCons(Percent, Parse(t[2..], false).value);
      } else {
        var e := LineEnd(t, 1).value;
        ParseSource(t[e + 1..], true);
        SourceCons(Line(t[1..e]), Parse(t[e + 1..], true).value);
      }
    } else {
      ParseSource(t[1..], t[0] == '\n');
      SourceCons(Char(t[0]), Parse(t[1..], t[0] == '\n').value);
      PieceSources();
      assert t == [t[0]] + t[1..];
    }
  }

  lemma NoSource()
    ensures Source([]) == ""
  {
  }

  lemma PieceSources()
    ensures SourceOf(Open) == "<%%" && SourceOf(Percent) == "%%" && forall c :: SourceOf(Char(c)) == [c]
  {
  }

  lemma EndInside(body: string, e: nat)
    requires EndsAt(body, e)
    ensures e + 1 < |body|
  {
  }

  lemma LineSource(t: string)
    requires |t| >= 2 && t[0] == '%'
    ensures t[1] == '%' ==> t == "%%" + t[2..]
    ensures forall e: nat :: 1 <= e < |t| && t[e] == '\n' ==> t == SourceOf(Line(t[1..e])) + t[e + 1..]
  {
    if t[1] == '%' { assert t == "%%" + t[2..]; }
    forall e: nat | 1 <= e < |t| && t[e] == '\n' ensures t == SourceOf(Line(t[1..e])) + t[e + 1..] {
      assert t == "%" + t[1..e] + "\n" + t[e + 1..];
    }
  }

  // ----- which templates there are -----

  /** The code can stand in front of an end delimiter, and holds none itself. */
  predicate Unended(raw: string) {
    (raw == "" || raw[|raw| - 1] != '%') &&
    forall e :: 0 <= e < |raw| - 1 && raw[e] == '%' && raw[e + 1] == '>' ==> e > 0 && raw[e - 1] == '%'
  }

  /** Every piece can stand where it stands: its text is not taken for something else. */
  predicate WellPlaced(ps: seq<Piece>, bol: bool) {
    if ps == [] then true
    else
      match ps[0]
      case Char(c) =>
        !(c == '<' && |Source(ps[1..])| > 0 && Source(ps[1..])[0] == '%') && !(c == '%' && bol) &&
        WellPlaced(ps[1..], c == '\n')
      case Open => WellPlaced(ps[1..], false)
      case Percent => bol && WellPlaced(ps[1..], false)
      case Program(kind, raw) =>
        Unended(raw) && (kind.Stmt? ==> raw != "" && raw[0] != '%' && raw[0] != '=' && raw[0] != '#') && WellPlaced(ps[1..], false)
      case Line(text) => bol && '\n' !in text && (text == "" || text[0] != '%') && WellPlaced(ps[1..], true)
  }

  lemma {:induction false} EndIsFirst(body: string, from: nat, e: nat)
    requires from <= e && EndsAt(body, e) && forall k :: from <= k < e ==> !EndsAt(body, k)
    ensures EndOf(body, from) == Some(e)
    decreases e - from
  {
    hide EndsAt;
    EndInside(body, e);
    if from < e { EndIsFirst(body, from + 1, e); }
  }

  lemma {:induction false} FirstIsEnd(body: string, from: nat)
    requires EndOf(body, from).Some?
    ensures forall k :: from <= k < EndOf(body, from).value ==> !EndsAt(body, k)
    decreases |body| - from
  {
    hide EndsAt;
    if !EndsAt(body, from) { FirstIsEnd(body, from + 1); }
  }

  /** Code without an end delimiter is read up to the one behind it. */
  lemma CodeEnds(raw: string, rest: string)
    requires Unended(raw)
    ensures EndOf(raw + "%>" + rest, 0) == Some(|raw|)
  {
    hide EndOf;
    var body := raw + "%>" + rest;
    assert body[|raw|] == '%' && body[|raw| + 1] == '>' && forall i :: 0 <= i < |raw| ==> body[i] == raw[i];
    EndIsFirst(body, 0, |raw|);
  }

  lemma EndsCode(body: string)
    requires EndOf(body, 0).Some?
    ensures EndOf(body, 0).value <= |body| && Unended(body[..EndOf(body, 0).value])
  {
    hide EndOf;
    var e := EndOf(body, 0).value;
    EndInside(body, e);
    FirstIsEnd(body, 0);
    var raw := body[..e];
    forall k | 0 <= k < |raw| - 1 && raw[k] == '%' && raw[k + 1] == '>' ensures k > 0 && raw[k - 1] == '%' {
      assert !EndsAt(body, k);
    }
  }

  lemma {:induction false} LineEndIs(t: string, from: nat, e: nat)
    requires from <= e < |t| && t[e] == '\n' && forall k :: from <= k < e ==> t[k] != '\n'
    ensures LineEnd(t, from) == Some(e)
    decreases e - from
  {
    if from < e { LineEndIs(t, from + 1, e); }
  }

  lemma {:induction false} LineHasNoEnd(t: string, from: nat)
    requires LineEnd(t, from).Some?
    ensures forall k :: from <= k < LineEnd(t, from).value ==> t[k] != '\n'
    decreases |t| - from
  {
    if t[from] != '\n' { LineHasNoEnd(t, from + 1); }
  }

  /** The text of pieces that stand where they can is read as these pieces. */
  lemma {:induction false} SourceParse(ps: seq<Piece>, bol: bool)
    requires WellPlaced(ps, bol)
    ensures Parse(Source(ps), bol) == Some(ps)
    decreases |ps|
  {
    hide EndOf, LineEnd, Unended;
    if ps != [] {
      var p, rest := ps[0], Source(ps[1..]);
      assert ps == [p] + ps[1..];
      match p
      case Char(c) =>
        SourceParse(ps[1..], c == '\n');
        assert Source(ps)[1..] == rest;
      case Open =>
        SourceParse(ps[1..], false);
        assert Source(ps)[3..] == rest;
      case Percent =>
        SourceParse(ps[1..], false);
        assert Source(ps)[2..] == rest;
      case Program(kind, raw) =>
        SourceParse(ps[1..], false);
        TagParses(kind, raw, rest, bol);
      case Line(text) =>
        SourceParse(ps[1..], true);
        LineParses(text, rest);
    }
  }

  lemma TagParses(kind: Kind, raw: string, rest: string, bol: bool)
    requires Unended(raw) && (kind.Stmt? ==> raw != "" && raw[0] != '%' && raw[0] != '=' && raw[0] != '#')
    ensures Parse(SourceOf(Program(kind, raw)) + rest, bol) == Then(Program(kind, raw), Parse(rest, false))
  {
    hide EndOf, Unended, SourceOf, Then;
    var t, body := SourceOf(Program(kind, raw)) + rest, raw + "%>" + rest;
    CodeEnds(raw, rest);
    TagText(kind, raw, rest);
    assert body[..|raw|] == raw && body[|raw| + 2..] == rest;
  }

  lemma TagText(kind: Kind, raw: string, rest: string)
    requires kind.Stmt? ==> raw != "" && raw[0] != '%' && raw[0] != '=' && raw[0] != '#'
    ensures var t := SourceOf(Program(kind, raw)) + rest;
            |t| > 2 && t[0] == '<' && t[1] == '%' && t[2] != '%' && KindOf(t[2]) == kind &&
            t[BodyStart(t[2])..] == raw + "%>" + rest
  {
    var mark := match kind case Stmt => "" case Expr => "=" case Comment => "#";
    var t, body := SourceOf(Program(kind, raw)) + rest, raw + "%>" + rest;
    assert t == "<%" + mark + body;
    assert t[2] == if kind.Stmt? then raw[0] else mark[0];
  }

  lemma LineParses(text: string, rest: string)
    requires '\n' !in text && (text == "" || text[0] != '%')
    ensures Parse(SourceOf(Line(text)) + rest, true) == Then(Line(text), Parse(rest, true))
  {
    hide LineEnd, Parse;
    var t := SourceOf(Line(text)) + rest;
    assert t[0] == '%' && t[1] == if text == "" then '\n' else text[0];
    assert forall k :: 1 <= k < 1 + |text| ==> t[k] == text[k - 1];
    LineEndIs(t, 1, 1 + |text|);
    PercentParsed(t);
    assert t[1..1 + |text|] == text && t[2 + |text|..] == rest;
  }

  /** The parser finds only pieces that stand where they can. */
  lemma {:induction false} ParsePlaced(t: string, bol: bool)
    requires Parse(t, bol).Some?
    ensures WellPlaced(Parse(t, bol).value, bol)
    decreases |t|
  {
    hide EndOf, LineEnd, Unended, Source, EndsAt;
    if t == "" {
    } else if |t| >= 2 && t[0] == '<' && t[1] == '%' {
      if t[2] == '%' {
        ParsePlaced(t[3..], false);
      } else {
        var body := t[BodyStart(t[2])..];
        var e := EndOf(body, 0).value;
        EndInside(body, e);
        EndsCode(body);
        ParsePlaced(body[e + 2..], false);
        RawStarts(t, e);
      }
    } else if t[0] == '%' && bol {
      if t[1] == '%' {
        ParsePlaced(t[2..], false);
      } else {
        var e := LineEnd(t, 1).value;
        LineHasNoEnd(t, 1);
        ParsePlaced(t[e + 1..], true);
      }
    } else {
      ParsePlaced(t[1..], t[0] == '\n');
      ParseSource(t[1..], t[0] == '\n');
    }
  }

  lemma RawStarts(t: string, e: nat)
    requires |t| > 2 && t[0] == '<' && t[1] == '%' && t[2] != '%' && EndOf(t[BodyStart(t[2])..], 0) == Some(e)
    ensures KindOf(t[2]).Stmt? ==> e > 0 && t[2..][0] == t[2]
  {
  }

  /** Whether a template compiles, and into which pieces it falls apart: exactly the well-placed ones that
      its text is made of. */
  lemma ParseExact(t: string, ps: seq<Piece>)
    ensures Parse(t, true) == Some(ps) <==> WellPlaced(ps, true) && Source(ps) == t
  {
    hide Parse, WellPlaced, Source;
    if Parse(t, true) == Some(ps) {
      ParsePlaced(t, true);
      ParseSource(t, true);
    }
    if WellPlaced(ps, true) && Source(ps) == t { SourceParse(ps, true); }
  }

  // ----- the program -----

  /** The middle % of %%> is dropped. */
  predicate Dropped(body: string, i: nat)
    requires i < |body|
  {
    body[i] == '%' && i > 0 && body[i - 1] == '%' && i + 1 < |body| && body[i + 1] == '>'
  }

  /** The first `k` characters of embedded code as they are copied; of a comment only the newlines. */
  function Copied(kind: Kind, body: string, k: nat): string
    requires k <= |body|
  {
    if k == 0 then ""
    else Copied(kind, body, k - 1) +
         (if Dropped(body, k - 1) || (kind.Comment? && body[k - 1] != '\n') then "" else [body[k - 1]])
  }

  function Code(kind: Kind, raw: string): string {
    var text := Copied(kind, raw, |raw|);
    match kind
    case Expr => "print((" + text + ")); "
    case Stmt => text + (if raw != "" && raw[|raw| - 1] == '\n' then "" else "; ")
    case Comment => text
  }

  function Escaped(c: char): string {
    if c == '\n' then "\\n" else if c == '\t' then "\\t"
    else if c == '\\' || c == '"' || c == '#' then ['\\', c] else [c]
  }

  /** Where the program stands: at the beginning of a template line, behind code, or inside a string. */
  datatype Mode = LineStart | AfterCode | InString

  function Opening(m: Mode): string {
    if m.InString? then "" else "print \""
  }

  /** The program for the pieces, up to and without the quote that would close the last string. */
  function Generated(ps: seq<Piece>): (string, Mode) {
    if ps == [] then ("", LineStart)
    else
      var (out, m) := Generated(ps[..|ps| - 1]);
      var (text, m') := Step(ps[|ps| - 1], m);
      (out + text, m')
  }

  function Step(p: Piece, m: Mode): (string, Mode) {
    match p
    case Char(c) =>
      if c == '\n' then (Opening(m) + Escaped(c) + "\"\n", LineStart) else (Opening(m) + Escaped(c), InString)
    case Open => (Opening(m) + "<%", InString)
    case Percent => (Opening(m) + "%", InString)
    case Program(kind, raw) => ((if m.InString? then "\"; " else "") + Code(kind, raw), AfterCode)
    case Line(text) => (text + "\n", LineStart)
  }

  function Compiled(ps: seq<Piece>): string {
    var (out, m) := Generated(ps);
    if m.InString? then out + "\"" else out
  }

  // ----- what the program does -----

  /** What running the program does: it prints a character or the value of an expression, or it runs a
      statement. */
  datatype Event = Out(c: char) | Value(code: string) | Run(code: string)

  /** Embedded code as its author means it: %%> stands for %>. */
  function Undoubled(raw: string): string {
    if raw == "" then ""
    else if |raw| >= 3 && raw[..3] == "%%>" then "%>" + Undoubled(raw[3..])
    else [raw[0]] + Undoubled(raw[1..])
  }

  function Outs(s: string): seq<Event> {
    if s == "" then [] else [Out(s[0])] + Outs(s[1..])
  }

  /** What a template asks for, piece by piece. */
  function Asked(ps: seq<Piece>): seq<Event> {
    if ps == [] then [] else Asked(ps[..|ps| - 1]) + AskedOf(ps[|ps| - 1])
  }

  function AskedOf(p: Piece): seq<Event> {
    match p
    case Char(c) => [Out(c)]
    case Open => [Out('<'), Out('%')]
    case Percent => [Out('%')]
    case Program(Stmt, raw) => [Run(Undoubled(raw))]
    case Program(Expr, raw) => [Value(Undoubled(raw))]
    case Program(Comment, raw) => []
    case Line(text) => [Run(text)]
  }

  /** The program as Ruby sees it: string literals that are printed, each with what stands behind its
      closing quote, expressions whose value is printed, statements with what ends them, and empty lines. */
  datatype Frag =
    | Literal(escaped: string, end: string)
    | Printed(code: string)
    | Statement(code: string, end: string)
    | Gap(lines: string)

  function Shown(fs: seq<Frag>): string {
    if fs == [] then "" else Shown(fs[..|fs| - 1]) + ShownOf(fs[|fs| - 1])
  }

  function ShownOf(f: Frag): string {
    match f
    case Literal(escaped, end) => "print \"" + escaped + "\"" + end
    case Printed(code) => "print((" + code + ")); "
    case Statement(code, end) => code + end
    case Gap(lines) => lines
  }

  /** Ruby's reading of a double-quoted literal: nothing when it would end early, hold a raw newline,
      start an interpolation, or end in the middle of an escape. */
  function Unescape(s: string): Option<string> {
    if s == "" then Some("")
    else if s[0] == '"' || s[0] == '#' || s[0] == '\n' then None
    else if s[0] == '\\' then
      if |s| == 1 then None
      else
        var c := if s[1] == 'n' then '\n' else if s[1] == 't' then '\t' else s[1];
        if s[1] == 'n' || s[1] == 't' || s[1] == '\\' || s[1] == '"' || s[1] == '#' then Prepend(c, Unescape(s[2..])) else None
    else Prepend(s[0], Unescape(s[1..]))
  }

  function Prepend(c: char, rest: Option<string>): Option<string> {
    if rest.Some? then Some([c] + rest.value) else None
  }

  /** The fragment is what it looks like, and what follows begins a new statement. */
  predicate GoodEnd(f: Frag, last: bool) {
    match f
    case Literal(escaped, end) => Unescape(escaped).Some? && (end == "\n" || end == "; " || (last && end == ""))
    case Printed(_) => true
    case Statement(code, end) => end == "; " || end == "\n" || (end == "" && code != "" && code[|code| - 1] == '\n')
    case Gap(lines) => forall i :: 0 <= i < |lines| ==> lines[i] == '\n'
  }

  function Done(fs: seq<Frag>): seq<Event> {
    if fs == [] then [] else Done(fs[..|fs| - 1]) + DoneBy(fs[|fs| - 1])
  }

  function DoneBy(f: Frag): seq<Event> {
    match f
    case Literal(escaped, _) => (match Unescape(escaped) case Some(t) => Outs(t) case None => [])
    case Printed(code) => [Value(code)]
    case Statement(code, _) => [Run(code)]
    case Gap(_) => []
  }

  lemma {:induction false} UnescapeSnoc(s: string, c: char)
    requires Unescape(s).Some?
    ensures Unescape(s + Escaped(c)) == Some(Unescape(s).value + [c])
  {
    hide Escaped;
    var e := Escaped(c);
    if s == "" {
      assert s + e == e;
      EscapedReads(c);
      assert "" + [c] == [c];
    } else if s[0] == '\\' {
      assert (s + e)[2..] == s[2..] + e && (s + e)[1] == s[1];
      UnescapeSnoc(s[2..], c);
      assert Unescape(s).value + [c] == [Unescape(s).value[0]] + (Unescape(s[2..]).value + [c]);
    } else {
      assert (s + e)[1..] == s[1..] + e;
      UnescapeSnoc(s[1..], c);
      assert Unescape(s).value + [c] == [s[0]] + (Unescape(s[1..]).value + [c]);
    }
  }

  lemma EscapedReads(c: char)
    ensures Unescape(Escaped(c)) == Some([c])
  {
    var e := Escaped(c);
    if |e| == 2 {
      assert e[2..] == "";
      assert Unescape(e[2..]) == Some("");
      assert [c] + "" == [c];
    } else {
      assert e[1..] == "";
      assert Unescape(e[1..]) == Some("");
      assert [c] + "" == [c];
    }
  }

  lemma {:induction false} OutsSnoc(s: string, c: char)
    ensures Outs(s + [c]) == Outs(s) + [Out(c)]
  {
    if s == "" {
      assert [c][1..] == "" && s + [c] == [c];
      assert Outs([c][1..]) == [];
    } else {
      assert (s + [c])[1..] == s[1..] + [c];
      OutsSnoc(s[1..], c);
    }
  }

  /** The fragments so far, and the escaped text of the literal that is still open. */
  ghost predicate Splits(ps: seq<Piece>, fs: seq<Frag>, open: string) {
    var (out, m) := Generated(ps);
    (forall i :: 0 <= i < |fs| ==> GoodEnd(fs[i], false)) && Unescape(open).Some? &&
    (m.InString? || open == "") &&
    out == Shown(fs) + (if m.InString? then "print \"" + open else "") &&
    Asked(ps) == Done(fs) + Outs(Unescape(open).value)
  }

  lemma GeneratedSnoc(ps: seq<Piece>, p: Piece)
    ensures var (out, m) := Generated(ps); var (text, m') := Step(p, m);
            Generated(ps + [p]) == (out + text, m') && Asked(ps + [p]) == Asked(ps) + AskedOf(p)
  {
    assert (ps + [p])[..|ps + [p]| - 1] == ps;
  }

  lemma ShownSnoc(fs: seq<Frag>, f: Frag)
    ensures Shown(fs + [f]) == Shown(fs) + ShownOf(f) && Done(fs + [f]) == Done(fs) + DoneBy(f)
  {
    assert (fs + [f])[..|fs + [f]| - 1] == fs;
  }

  /** A character goes into the open literal, which is opened first when there is none. */
  lemma SplitsChar(ps: seq<Piece>, p: Piece, fs: seq<Frag>, open: string, c: char)
    requires Splits(ps, fs, open) && AskedOf(p) == [Out(c)]
    requires Step(p, Generated(ps).1) == (Opening(Generated(ps).1) + Escaped(c), InString)
    ensures Splits(ps + [p], fs, open + Escaped(c))
  {
    hide Generated, Shown, Done, Asked, Escaped, Outs, Unescape;
    GeneratedSnoc(ps, p);
    UnescapeSnoc(open, c);
    OutsSnoc(Unescape(open).value, c);
    assert Generated(ps + [p]).0 == Shown(fs) + ("print \"" + (open + Escaped(c)));
  }

  lemma SplitsOpen(ps: seq<Piece>, fs: seq<Frag>, open: string)
    requires Splits(ps, fs, open)
    ensures Splits(ps + [Open], fs, open + "<%")
  {
    hide Generated, Shown, Done, Asked, Outs, Unescape;
    GeneratedSnoc(ps, Open);
    UnescapeSnoc(open, '<');
    UnescapeSnoc(open + "<", '%');
    OutsSnoc(Unescape(open).value, '<');
    OutsSnoc(Unescape(open).value + ['<'], '%');
    assert open + "<" + "%" == open + "<%";
    assert Generated(ps + [Open]).0 == Shown(fs) + ("print \"" + (open + "<%"));
  }

  /** A newline ends the literal and the line of the program. */
  lemma SplitsNewline(ps: seq<Piece>, fs: seq<Frag>, open: string)
    requires Splits(ps, fs, open)
    ensures Splits(ps + [Char('\n')], fs + [Literal(open + "\\n", "\n")], "")
  {
    hide Generated, Shown, Done, Asked, Outs, Unescape;
    var e := open + "\\n";
    GeneratedSnoc(ps, Char('\n'));
    UnescapeSnoc(open, '\n');
    OutsSnoc(Unescape(open).value, '\n');
    ShownSnoc(fs, Literal(e, "\n"));
    EmptyReads();
    assert Generated(ps + [Char('\n')]).0 == Shown(fs) + ("print \"" + e + "\"" + "\n");
  }

  lemma EmptyReads()
    ensures Unescape("") == Some("") && Outs("") == []
  {
  }

  /** Code ends an open literal. */
  lemma SplitsCode(ps: seq<Piece>, p: Piece, fs: seq<Frag>, open: string, f: Frag)
    requires Splits(ps, fs, open) && GoodEnd(f, false) && AskedOf(p) == DoneBy(f)
    requires var m := Generated(ps).1;
             Step(p, m).0 == (if m.InString? then "\"; " else "") + ShownOf(f) && !Step(p, m).1.InString?
    ensures var fs' := if Generated(ps).1.InString? then fs + [Literal(open, "; ")] else fs;
            Splits(ps + [p], fs' + [f], "")
  {
    hide Generated, Shown, ShownOf, Done, DoneBy, Asked, AskedOf, Outs, Unescape, Step, GoodEnd;
    GeneratedSnoc(ps, p);
    EmptyReads();
    if Generated(ps).1.InString? {
      LiteralIs(open, "; ");
      var fs' := fs + [Literal(open, "; ")];
      ShownSnoc(fs, Literal(open, "; "));
      ShownSnoc(fs', f);
      assert Generated(ps + [p]).0 == Shown(fs) + ("print \"" + open + "\"" + "; ") + ShownOf(f);
    } else {
      ShownSnoc(fs, f);
    }
  }

  lemma LiteralIs(open: string, end: string)
    requires Unescape(open).Some? && (end == "; " || end == "\n")
    ensures var f := Literal(open, end);
            ShownOf(f) == "print \"" + open + "\"" + end && DoneBy(f) == Outs(Unescape(open).value) && GoodEnd(f, false)
  {
    hide Unescape, Outs;
  }

  // ----- embedded code -----

  /** The characters from `i` on that are copied. */
  function CopiedFrom(kind: Kind, body: string, i: nat): string
    requires i <= |body|
    decreases |body| - i
  {
    if i == |body| then ""
    else (if Dropped(body, i) || (kind.Comment? && body[i] != '\n') then "" else [body[i]]) + CopiedFrom(kind, body, i + 1)
  }

  lemma {:induction false} CopiedSplit(kind: Kind, body: string, k: nat)
    requires k <= |body|
    ensures Copied(kind, body, |body|) == Copied(kind, body, k) + CopiedFrom(kind, body, k)
    decreases |body| - k
  {
    hide Copied, Dropped;
    if k == |body| {
      assert Copied(kind, body, k) + "" == Copied(kind, body, k);
    } else {
      CopiedSplit(kind, body, k + 1);
      CopiedStep(kind, body, k);
      Rest(Copied(kind, body, k), if Dropped(body, k) || (kind.Comment? && body[k] != '\n') then "" else [body[k]],
           CopiedFrom(kind, body, k + 1));
    }
  }

  /** Dropping middle characters is taking %%> for %>. */
  lemma {:induction false} UndoubledFrom(kind: Kind, body: string, i: nat)
    requires !kind.Comment? && i <= |body| && (i < |body| ==> !Dropped(body, i))
    ensures Undoubled(body[i..]) == CopiedFrom(kind, body, i)
    decreases |body| - i
  {
    var s := body[i..];
    if i < |body| {
      assert i + 1 < |body| && Dropped(body, i + 1) ==> s[..3] == "%%>";
      if |s| >= 3 && s[..3] == "%%>" {
        assert body[i] == s[..3][0] && body[i + 1] == s[..3][1] && body[i + 2] == s[..3][2];
        assert s[3..] == body[i + 3..];
        UndoubledFrom(kind, body, i + 3);
        assert CopiedFrom(kind, body, i + 2) == ">" + CopiedFrom(kind, body, i + 3);
        assert CopiedFrom(kind, body, i + 1) == "" + CopiedFrom(kind, body, i + 2);
        assert CopiedFrom(kind, body, i) == "%" + CopiedFrom(kind, body, i + 1);
      } else {
        assert s[1..] == body[i + 1..];
        UndoubledFrom(kind, body, i + 1);
      }
    }
  }

  /** What is copied of statements and expressions. */
  lemma CopiedIs(kind: Kind, raw: string)
    requires !kind.Comment?
    ensures Copied(kind, raw, |raw|) == Undoubled(raw)
  {
    hide Copied, Undoubled;
    assert raw[0..] == raw;
    UndoubledFrom(kind, raw, 0);
    CopiedSplit(kind, raw, 0);
    CopiedNone(kind, raw);
    assert "" + CopiedFrom(kind, raw, 0) == CopiedFrom(kind, raw, 0);
  }

  lemma {:induction false} CommentLines(body: string, k: nat)
    requires k <= |body|
    ensures forall i :: 0 <= i < |Copied(Comment, body, k)| ==> Copied(Comment, body, k)[i] == '\n'
  {
    if k > 0 { CommentLines(body, k - 1); }
  }

  /** The fragment that the compiler makes of embedded code. */
  lemma CodeFrag(kind: Kind, raw: string) returns (f: Frag)
    ensures ShownOf(f) == Code(kind, raw) && GoodEnd(f, false) && DoneBy(f) == AskedOf(Program(kind, raw))
  {
    hide Copied, Undoubled;
    match kind
    case Expr =>
      CopiedIs(kind, raw);
      f := Printed(Undoubled(raw));
    case Stmt =>
      CopiedIs(kind, raw);
      if raw != "" && raw[|raw| - 1] == '\n' {
        CopiedStep(kind, raw, |raw| - 1);
        f := Statement(Undoubled(raw), "");
      } else {
        f := Statement(Undoubled(raw), "; ");
      }
    case Comment =>
      CommentLines(raw, |raw|);
      f := Gap(Copied(kind, raw, |raw|));
  }

  /** Every piece that stands where the parser puts it. */
  lemma SplitsPiece(ps: seq<Piece>, p: Piece, fs: seq<Frag>, open: string) returns (fs': seq<Frag>, open': string)
    requires Splits(ps, fs, open) && (p.Line? ==> !Generated(ps).1.InString?)
    ensures Splits(ps + [p], fs', open')
  {
    hide Generated, Shown, Done, Asked, Outs, Unescape, Splits, Code;
    var m := Generated(ps).1;
    match p
    case Char(c) =>
      if c == '\n' {
        SplitsNewline(ps, fs, open);
        fs', open' := fs + [Literal(open + "\\n", "\n")], "";
      } else {
        SplitsChar(ps, p, fs, open, c);
        fs', open' := fs, open + Escaped(c);
      }
    case Open =>
      SplitsOpen(ps, fs, open);
      fs', open' := fs, open + "<%";
    case Percent =>
      SplitsChar(ps, p, fs, open, '%');
      fs', open' := fs, open + "%";
    case Program(kind, raw) =>
      var f := CodeFrag(kind, raw);
      SplitsCode(ps, p, fs, open, f);
      fs', open' := (if m.InString? then fs + [Literal(open, "; ")] else fs) + [f], "";
    case Line(text) =>
      assert "" + (text + "\n") == text + "\n";
      SplitsCode(ps, p, fs, open, Statement(text, "\n"));
      fs', open' := fs + [Statement(text, "\n")], "";
  }

  lemma ModeAfter(ps: seq<Piece>, p: Piece)
    ensures Generated(ps + [p]).1 == Step(p, Generated(ps).1).1
  {
    hide Generated;
    GeneratedSnoc(ps, p);
  }

  lemma {:induction false} SplitsRest(t: string, bol: bool, pre: seq<Piece>, fs: seq<Frag>, open: string)
    returns (fs': seq<Frag>, open': string)
    requires Parse(t, bol).Some? && Splits(pre, fs, open) && (bol ==> Generated(pre).1.LineStart?)
    ensures Splits(pre + Parse(t, bol).value, fs', open')
    decreases |t|
  {
    hide Generated, Splits, EndOf, LineEnd, Code;
    if t == "" {
      assert pre + [] == pre;
      fs', open' := fs, open;
    } else {
      var p := Parse(t, bol).value[0];
      var rest, bol' := Remaining(t, bol);
      var f, o := SplitsPiece(pre, p, fs, open);
      ModeAfter(pre, p);
      fs', open' := SplitsRest(rest, bol', pre + [p], f, o);
      assert pre + [p] + Parse(rest, bol').value == pre + ([p] + Parse(rest, bol').value);
    }
  }

  /** What the first piece leaves of the template. */
  lemma Remaining(t: string, bol: bool) returns (rest: string, bol': bool)
    requires t != "" && Parse(t, bol).Some?
    ensures |rest| < |t| && Parse(rest, bol').Some? && Parse(t, bol).value == [Parse(t, bol).value[0]] + Parse(rest, bol').value
    ensures var p := Parse(t, bol).value[0];
            (p.Line? ==> bol) && (bol' ==> forall m :: Step(p, m).1.LineStart?)
  {
    hide EndOf, LineEnd, Code, EndsAt;
    if |t| >= 2 && t[0] == '<' && t[1] == '%' {
      if t[2] == '%' {
        rest, bol' := t[3..], false;
      } else {
        var body := t[BodyStart(t[2])..];
        EndInside(body, EndOf(body, 0).value);
        rest, bol' := body[EndOf(body, 0).value + 2..], false;
      }
    } else if t[0] == '%' && bol {
      if t[1] == '%' {
        rest, bol' := t[2..], false;
      } else {
        rest, bol' := t[LineEnd(t, 1).value + 1..], true;
      }
    } else {
      rest, bol' := t[1..], t[0] == '\n';
    }
  }

  /** The program prints exactly the text of the template and runs exactly its code, in template
      order: it falls apart into literals that Ruby reads back as the text, and the code. */
  lemma ProgramMeans(t: string) returns (fs: seq<Frag>)
    requires Parse(t, true).Some?
    ensures Shown(fs) == Compiled(Parse(t, true).value)
    ensures forall i :: 0 <= i < |fs| ==> GoodEnd(fs[i], i == |fs| - 1)
    ensures Done(fs) == Asked(Parse(t, true).value)
  {
    hide Parse, Unescape, Outs, Splits, Shown, Done, Asked, Generated, Compiled, GoodEnd;
    var ps := Parse(t, true).value;
    SplitsNothing();
    var open;
    fs, open := SplitsRest(t, true, [], [], "");
    assert [] + ps == ps;
    fs := SplitsAll(ps, fs, open);
  }

  lemma SplitsNothing()
    ensures Splits([], [], "") && Generated([]).1.LineStart?
  {
    hide Unescape, Outs;
    EmptyReads();
  }

  /** The last literal is closed at the end. */
  lemma SplitsAll(ps: seq<Piece>, fs: seq<Frag>, open: string) returns (fs': seq<Frag>)
    requires Splits(ps, fs, open)
    ensures Shown(fs') == Compiled(ps) && Done(fs') == Asked(ps)
    ensures forall i :: 0 <= i < |fs'| ==> GoodEnd(fs'[i], i == |fs'| - 1)
  {
    hide Unescape, Outs, Shown, ShownOf, Done, DoneBy, Asked, Generated, GoodEnd;
    EmptyReads();
    fs' := fs;
    forall f | f in fs ensures GoodEnd(f, true) && GoodEnd(f, false) { StillGood(fs, f); }
    if Generated(ps).1.InString? {
      var last := Literal(open, "");
      LastIs(open);
      ShownSnoc(fs, last);
      Rest(Shown(fs), "print \"" + open, "\"");
      fs' := fs + [last];
    }
  }

  lemma LastIs(open: string)
    requires Unescape(open).Some?
    ensures var f := Literal(open, "");
            ShownOf(f) == "print \"" + open + "\"" && DoneBy(f) == Outs(Unescape(open).value) && GoodEnd(f, true)
  {
    hide Unescape, Outs;
    assert "print \"" + open + "\"" + "" == "print \"" + open + "\"";
  }

  lemma StillGood(fs: seq<Frag>, f: Frag)
    requires f in fs && forall i :: 0 <= i < |fs| ==> GoodEnd(fs[i], false)
    ensures GoodEnd(f, true) && GoodEnd(f, false)
  {
    hide Unescape;
  }

  // ----- line numbers -----

  function Newlines(s: string): nat {
    if s == "" then 0 else Newlines(s[..|s| - 1]) + (if s[|s| - 1] == '\n' then 1 else 0)
  }

  lemma {:induction false} NewlinesConcat(a: string, b: string)
    ensures Newlines(a + b) == Newlines(a) + Newlines(b)
  {
    if b == "" {
      assert a + b == a;
    } else {
      assert (a + b)[..|a + b| - 1] == a + b[..|b| - 1];
      NewlinesConcat(a, b[..|b| - 1]);
    }
  }

  lemma NewlinesOne(c: char)
    ensures Newlines([c]) == if c == '\n' then 1 else 0
  {
    assert [c][..0] == "";
  }

  lemma {:induction false} NoNewlines(s: string)
    requires '\n' !in s
    ensures Newlines(s) == 0
  {
    if s != "" { NoNewlines(s[..|s| - 1]); }
  }

  /** Copying code, or only the newlines of a comment, keeps the number of newlines. */
  lemma {:induction false} CopiedNewlines(kind: Kind, body: string, k: nat)
    requires k <= |body|
    ensures Newlines(Copied(kind, body, k)) == Newlines(body[..k])
  {
    hide Newlines;
    if k == 0 {
      NoNewlines("");
    } else {
      CopiedNewlines(kind, body, k - 1);
      assert body[..k] == body[..k - 1] + [body[k - 1]];
      NewlinesConcat(body[..k - 1], [body[k - 1]]);
      NewlinesOne(body[k - 1]);
      NewlinesConcat(Copied(kind, body, k - 1), [body[k - 1]]);
      assert Copied(kind, body, k - 1) + "" == Copied(kind, body, k - 1);
    }
  }

  lemma CodeNewlines(kind: Kind, raw: string)
    ensures Newlines(Code(kind, raw)) == Newlines(raw)
  {
    hide Newlines, Copied;
    CopiedNewlines(kind, raw, |raw|);
    assert raw[..|raw|] == raw;
    var text := Copied(kind, raw, |raw|);
    NoNewlines("print((");
    NoNewlines(")); ");
    NoNewlines("; ");
    NoNewlines("");
    NewlinesConcat("print((" + text, ")); ");
    NewlinesConcat("print((", text);
    NewlinesConcat(text, "; ");
    NewlinesConcat(text, "");
  }

  lemma StepNewlines(p: Piece, m: Mode)
    ensures Newlines(Step(p, m).0) == Newlines(SourceOf(p))
  {
    hide Newlines, Code;
    NoNewlines(Opening(m));
    match p
    case Char(c) =>
      NewlinesOne(c);
      NoNewlines(Escaped(c));
      NewlinesConcat(Opening(m), Escaped(c));
      if c == '\n' {
        NewlinesConcat(Opening(m) + Escaped(c), "\"\n");
        NewlinesConcat("\"", "\n");
        NewlinesOne('"');
        assert "\"" + "\n" == "\"\n";
        NewlinesOne('\n');
      }
    case Open => NoNewlines(Opening(m) + "<%"); NoNewlines("<%%");
    case Percent => NoNewlines(Opening(m) + "%"); NoNewlines("%%");
    case Program(kind, raw) => ProgramNewlines(kind, raw, m);
    case Line(text) =>
      NewlinesConcat("%" + text, "\n");
      NewlinesConcat("%", text);
      NewlinesOne('%');
      NewlinesConcat(text, "\n");
  }

  lemma ProgramNewlines(kind: Kind, raw: string, m: Mode)
    ensures Newlines((if m.InString? then "\"; " else "") + Code(kind, raw)) == Newlines(SourceOf(Program(kind, raw)))
  {
    hide Newlines, Code;
    CodeNewlines(kind, raw);
    var a := if m.InString? then "\"; " else "";
    NoNewlines(a);
    NewlinesConcat(a, Code(kind, raw));
    var mark := match kind case Stmt => "" case Expr => "=" case Comment => "#";
    NoNewlines("<%" + mark);
    NoNewlines("%>");
    NewlinesConcat("<%" + mark + raw, "%>");
    NewlinesConcat("<%" + mark, raw);
  }

  lemma {:induction false} SourceSnoc(ps: seq<Piece>, p: Piece)
    ensures Source(ps + [p]) == Source(ps) + SourceOf(p)
  {
    hide SourceOf;
    if ps == [] {
      assert ps + [p] == [p];
      SourceCons(p, []);
      NoSource();
      assert [p] + [] == [p];
    } else {
      assert (ps + [p])[1..] == ps[1..] + [p];
      SourceSnoc(ps[1..], p);
    }
  }

  lemma {:induction false} GeneratedNewlines(ps: seq<Piece>)
    ensures Newlines(Generated(ps).0) == Newlines(Source(ps))
  {
    hide Newlines, Step, SourceOf;
    if ps != [] {
      var pre, p := ps[..|ps| - 1], ps[|ps| - 1];
      assert pre + [p] == ps;
      GeneratedNewlines(pre);
      SourceSnoc(pre, p);
      StepNewlines(p, Generated(pre).1);
      NewlinesConcat(Generated(pre).0, Step(p, Generated(pre).1).0);
      NewlinesConcat(Source(pre), SourceOf(p));
    }
  }

  /** The program has as many lines as the template, so line numbers are kept. */
  lemma LinesKept(t: string)
    requires Parse(t, true).Some?
    ensures Newlines(Compiled(Parse(t, true).value)) == Newlines(t)
  {
    hide Newlines, Parse, Generated, Source;
    var ps := Parse(t, true).value;
    ParseSource(t, true);
    GeneratedNewlines(ps);
    NewlinesConcat(Generated(ps).0, "\"");
    NoNewlines("\"");
  }

  // ----- the compiler -----

  const BUFSIZ: nat := 8192

  /** What the compiler remembers of the character before: EOF at the beginning of a line, EOP
      behind a program, or the character. */
  datatype Prev = Eof | Eop | Was(c: char)

  function ModeOf(p: Prev): Mode {
    match p case Eof => LineStart case Eop => AfterCode case Was(_) => InString
  }

  /** How the scan of embedded code goes on. */
  datatype Scan = Further | Found | Missing

  class Compiler {
    const src: string
    var lexP: nat
    const buf: array<char>
    var bufLen: nat
    var out: string

    ghost predicate Valid()
      reads this
    {
      lexP <= |src| && bufLen <= buf.Length == BUFSIZ
    }

    /** What has been emitted: the output string, and behind it what is still in the buffer. */
    ghost function Emitted(): string
      requires Valid()
      reads this, buf
    {
      out + buf[..bufLen]
    }

    /** The character at a position; nothing at the end. */
    function At(k: nat): Option<char> {
      if k < |src| then Some(src[k]) else None
    }

    /** `c` was read at position `k`. */
    ghost predicate Reading(k: nat, c: Option<char>)
      reads this
    {
      k <= |src| && c == At(k) && lexP == if k < |src| then k + 1 else k
    }

    constructor (src: string)
      requires '\r' !in src
      ensures Valid() && this.src == src && lexP == 0 && Emitted() == "" && fresh(buf)
    {
      this.src, lexP, bufLen, out := src, 0, 0, "";
      buf := new char[BUFSIZ];
    }

    /** nextc. */
    method Nextc() returns (c: Option<char>)
      requires Valid()
      modifies this`lexP
      ensures Valid() && Emitted() == old(Emitted()) && Reading(old(lexP), c)
    {
      if lexP == |src| { return None; }
      c := Some(src[lexP]);
      lexP := lexP + 1;
    }

    /** pushback. */
    method Pushback(c: Option<char>, ghost k: nat)
      requires Valid() && Reading(k, c)
      modifies this`lexP
      ensures Valid() && Emitted() == old(Emitted()) && lexP == k
    {
      if c.Some? { lexP := lexP - 1; }
    }

    /** flushbuf. */
    method Flush()
      requires Valid()
      modifies this`out, this`bufLen
      ensures Valid() && bufLen == 0 && out == old(Emitted()) && Emitted() == old(Emitted())
    {
      out := out + buf[..bufLen];
      bufLen := 0;
      assert buf[..0] == "";
    }

    /** output. A string longer than the buffer goes out at once, in front of what is still in the
        buffer, so it is appended to what was emitted only when the buffer is empty. */
    method Output(s: string)
      requires Valid()
      modifies this`out, this`bufLen, buf
      ensures Valid()
      ensures |s| <= BUFSIZ ==> Emitted() == old(Emitted()) + s
      ensures |s| > BUFSIZ ==> Emitted() == old(out) + s + old(buf[..bufLen])
    {
      if |s| > BUFSIZ {
        out := out + s;
        return;
      }
      if bufLen + |s| > BUFSIZ { Flush(); }
      ghost var before := buf[..bufLen];
      forall i | 0 <= i < |s| { buf[bufLen + i] := s[i]; }
      assert buf[..bufLen + |s|] == before + s;
      bufLen := bufLen + |s|;
    }

    /** output_char. */
    method OutputChar(c: char)
      requires Valid()
      modifies this`out, this`bufLen, buf
      ensures Valid() && Emitted() == old(Emitted()) + [c]
    {
      if bufLen == BUFSIZ { Flush(); }
      ghost var before := buf[..bufLen];
      buf[bufLen] := c;
      bufLen := bufLen + 1;
      assert buf[..bufLen] == before + [c];
    }

    /** Scanning embedded code: `c` is the character at `k`, `prevc` the one before it, and what lies
        before has been copied. */
    ghost predicate Scanning(kind: Kind, start: nat, front: string, k: nat, c: Option<char>, prevc: Option<char>)
      requires Valid() && start <= |src|
      reads this, buf
    {
      var body := src[start..];
      k <= |body| && Reading(start + k, c) && prevc == (if k == 0 then None else Some(body[k - 1])) &&
      Emitted() == front + Copied(kind, body, k) && EndOf(body, 0) == EndOf(body, k)
    }

    /** parse_embedded_program: it ends at the first end delimiter, or fails when there is none. */
    method ParseEmbeddedProgram(kind: Kind) returns (ok: bool)
      requires Valid()
      modifies this`lexP, this`out, this`bufLen, buf
      ensures Valid()
      ensures var body, from := src[old(lexP)..], old(lexP);
              match EndOf(body, 0)
              case None => !ok
              case Some(e) => ok && lexP == from + e + 2 && Emitted() == old(Emitted()) + Code(kind, body[..e])
    {
      hide EndOf, Copied, EndsAt, Dropped, Code;
      ghost var start, body, before := lexP, src[lexP..], Emitted();
      if kind.Expr? { Output("print(("); }
      ghost var k, front := 0, Emitted();
      var prevc: Option<char> := None;
      var c := Nextc();
      CopiedNone(kind, body);
      assert front + "" == front;
      while true
        invariant Valid() && 0 <= k <= |body| && Scanning(kind, start, front, k, c, prevc)
        decreases |body| - k
      {
        if c.None? {
          NoEnd(body, k);
          return false;
        }
        var at;
        c, prevc, at, k := ScanOnce(kind, c.value, prevc, start, front, k);
        if at.Missing? { return false; }
        if at.Found? {
          FinishProgram(kind, prevc, front, body[..k]);
          if kind.Expr? { ExprCode(before, body[..k]); }
          return true;
        }
      }
    }

    /** One character of embedded code, with the one behind it where it is a %. */
    method ScanOnce(kind: Kind, c0: char, prev0: Option<char>, ghost start: nat, ghost front: string, ghost k: nat)
      returns (c: Option<char>, prevc: Option<char>, at: Scan, ghost k': nat)
      requires Valid() && start + k < |src| && Scanning(kind, start, front, k, Some(c0), prev0)
      modifies this`lexP, this`out, this`bufLen, buf
      ensures Valid() && k' <= |src| - start && prevc == (if k' == 0 then None else Some(src[start + k' - 1]))
      ensures at.Further? ==> k' > k && Scanning(kind, start, front, k', c, prevc)
      ensures at.Found? ==> lexP == start + k' + 2 && EndOf(src[start..], 0) == Some(k') && EndsAt(src[start..], k')
      ensures at.Found? ==> Emitted() == front + Copied(kind, src[start..][..k'], k')
      ensures at.Missing? ==> EndOf(src[start..], 0) == None
    {
      hide EndOf, Copied, EndsAt, Dropped;
      ghost var body, kept := src[start..], Copied(kind, src[start..], k);
      prevc, at, k' := prev0, Further, k;
      ScanStep(kind, body, k);
      if c0 == '%' {
        c := Nextc();
        if c == Some('>') {
          if prevc == Some('%') {
            if !kind.Comment? { Output(">"); }
            prevc := Some('>');
            c := Nextc();
            k' := k + 2;
            Rest(front, kept, if kind.Comment? then "" else ">");
          } else {
            CopiedPrefix(kind, body, k, k);
            at := Found;
          }
        } else if c.None? {
          NoEnd(body, k);
          at := Missing;
        } else {
          if !kind.Comment? { Output("%"); }
          prevc := Some('%');
          k' := k + 1;
          Rest(front, kept, if kind.Comment? then "" else "%");
        }
      } else {
        if c0 == '\n' || !kind.Comment? { OutputChar(c0); }
        prevc := Some(c0);
        Rest(front, kept, if c0 == '\n' || !kind.Comment? then [c0] else "");
        c := Nextc();
        k' := k + 1;
      }
    }

    /** What is written behind the code. */
    method FinishProgram(kind: Kind, prevc: Option<char>, ghost front: string, ghost raw: string)
      requires Valid() && prevc == (if raw == "" then None else Some(raw[|raw| - 1]))
      requires Emitted() == front + Copied(kind, raw, |raw|)
      modifies this`out, this`bufLen, buf
      ensures Valid() && Emitted() == (if kind.Expr? then front + Copied(kind, raw, |raw|) + ")); " else front + Code(kind, raw))
    {
      hide Copied;
      Rest(front, Copied(kind, raw, |raw|), "; ");
      if kind.Expr? {
        Output(")); ");
      } else if kind.Stmt? && prevc != Some('\n') {
        Output("; ");
      } else {
        assert Copied(kind, raw, |raw|) + "" == Copied(kind, raw, |raw|);
      }
    }

    /** parse_embedded_line. */
    method ParseEmbeddedLine() returns (ok: bool)
      requires Valid()
      modifies this`lexP, this`out, this`bufLen, buf
      ensures Valid()
      ensures var from := old(lexP);
              match LineEnd(src, from)
              case None => !ok
              case Some(e) => ok && lexP == e + 1 && Emitted() == old(Emitted()) + src[from..e] + "\n"
    {
      hide LineEnd;
      ghost var start, before := lexP, Emitted();
      assert src[start..start] == "" && before + "" == before;
      while true
        invariant Valid() && start <= lexP && Emitted() == before + src[start..lexP] && LineEnd(src, start) == LineEnd(src, lexP)
        decreases |src| - lexP
      {
        ghost var k := lexP;
        LineStep(src, k);
        var c := Nextc();
        if c.None? { return false; }
        OutputChar(c.value);
        assert src[start..k + 1] == src[start..k] + [src[k]];
        Rest(before, src[start..k], [src[k]]);
        if c == Some('\n') { return true; }
      }
    }

    /** Where the compiler is in a template: the pieces `done` lie before `k`, `c` is the character
        there, and `prevc` says where in the program it stands. */
    ghost predicate Compiling(done: seq<Piece>, k: nat, c: Option<char>, prevc: Prev)
      requires Valid()
      reads this, buf
    {
      Reading(k, c) && Emitted() == Generated(done).0 && Generated(done).1 == ModeOf(prevc) &&
      Parse(src, true) == Joined(done, Parse(src[k..], prevc.Eof?))
    }

    /** From the template at `from` on, `p` is the first piece, and the rest begins at `k`. */
    ghost predicate Takes(from: nat, bol: bool, p: Piece, k: nat, prevc: Prev) {
      from < k <= |src| && Parse(src[from..], bol) == Then(p, Parse(src[k..], prevc.Eof?))
    }

    /** eruby_compile. The result is nothing when a delimiter or a line end is missing, and else the
        program for the pieces of the template. */
    method Compile() returns (r: Option<string>)
      requires Valid() && lexP == 0 && Emitted() == "" && !(|src| >= 2 && src[0] == '#' && src[1] == '!')
      modifies this`lexP, this`out, this`bufLen, buf
      ensures r == match Parse(src, true) case None => None case Some(ps) => Some(Compiled(ps))
    {
      hide Parse, Generated, Step, Compiled;
      var c := Nextc();
      if c == Some('#') {
        c := Nextc();
        Pushback(c, 1);
        Pushback(Some('#'), 0);
      } else {
        Pushback(c, 0);
      }
      c := Nextc();
      var prevc: Prev := Eof;
      ghost var done, k := [], 0;
      Begin(src);
      while true
        invariant Valid() && 0 <= k <= |src| && Compiling(done, k, c, prevc)
        decreases |src| - k
      {
        if c.None? {
          assert src[k..] == "";
          Finished(src, done, prevc.Eof?);
          if prevc.Was? { Output("\""); }
          if bufLen > 0 { Flush(); }
          assert buf[..0] == "" && out + "" == out;
          return Some(out);
        }
        var ok;
        ghost var p, next;
        ok, c, prevc, p, next := CompileOne(c.value, prevc, k);
        if !ok {
          assert Joined(done, None) == None;
          return None;
        }
        Commit(src, done, p, Parse(src[next..], prevc.Eof?));
        GeneratedSnoc(done, p);
        done, k := done + [p], next;
      }
    }

    /** One piece of the template: what the loop of eruby_compile does until the next piece. */
    method CompileOne(c0: char, prev0: Prev, ghost k0: nat)
      returns (ok: bool, c: Option<char>, prevc: Prev, ghost p: Piece, ghost k: nat)
      requires Valid() && k0 < |src| && Reading(k0, Some(c0))
      modifies this`lexP, this`out, this`bufLen, buf
      ensures Valid()
      ensures ok ==> Takes(k0, prev0.Eof?, p, k, prevc) && Reading(k, c)
      ensures ok ==> Emitted() == old(Emitted()) + Step(p, ModeOf(prev0)).0 && ModeOf(prevc) == Step(p, ModeOf(prev0)).1
      ensures !ok ==> Parse(src[k0..], prev0.Eof?) == None
    {
      hide Parse, Step;
      p, k := Char(c0), k0 + 1;
      if c0 == '<' {
        ok, c, prevc, p, k := CompileTag(prev0, k0);
      } else if c0 == '%' && prev0.Eof? {
        ok, c, prevc, p, k := CompileLine(k0);
      } else {
        ok := true;
        prevc := CompileChar(c0, prev0);
        PlainChar(src, k0, prev0.Eof?);
        c := Nextc();
      }
    }

    /** The characters without a meaning of their own. */
    method CompileChar(c: char, prev0: Prev) returns (prevc: Prev)
      requires Valid()
      modifies this`out, this`bufLen, buf
      ensures Valid() && Emitted() == old(Emitted()) + Step(Char(c), ModeOf(prev0)).0
      ensures ModeOf(prevc) == Step(Char(c), ModeOf(prev0)).1 && (prevc.Eof? <==> c == '\n')
    {
      ghost var before, opening := Emitted(), Opening(ModeOf(prev0));
      if !prev0.Was? { Output("print \""); }
      assert Emitted() == before + opening by { assert before + "" == before; }
      Rest(before, opening, Escaped(c));
      if c == '\n' {
        Output("\\n\"\n");
        assert "\\n\"\n" == "\\n" + "\"\n";
        Rest(before, opening, "\\n\"\n");
        Rest(opening, "\\n", "\"\n");
        prevc := Eof;
      } else if c == '\t' {
        Output("\\t");
        prevc := Was(c);
      } else if c == '\\' || c == '"' || c == '#' {
        Output("\\");
        OutputChar(c);
        Rest(before + opening, "\\", [c]);
        assert "\\" + [c] == Escaped(c);
        prevc := Was(c);
      } else {
        OutputChar(c);
        prevc := Was(c);
      }
    }

    /** What follows a `<`. */
    method CompileTag(prev0: Prev, ghost k0: nat)
      returns (ok: bool, c: Option<char>, prevc: Prev, ghost p: Piece, ghost k: nat)
      requires Valid() && k0 < |src| && Reading(k0, Some('<'))
      modifies this`lexP, this`out, this`bufLen, buf
      ensures Valid()
      ensures ok ==> Takes(k0, prev0.Eof?, p, k, prevc) && Reading(k, c)
      ensures ok ==> Emitted() == old(Emitted()) + Step(p, ModeOf(prev0)).0 && ModeOf(prevc) == Step(p, ModeOf(prev0)).1
      ensures !ok ==> Parse(src[k0..], prev0.Eof?) == None
    {
      hide Parse, EndOf, Code;
      ghost var before, opening := Emitted(), Opening(ModeOf(prev0));
      assert before + "" == before;
      ok, p, k := true, Char('<'), k0 + 1;
      c := Nextc();
      if c == Some('%') {
        c := Nextc();
        if c.None? {
          OpenTag(src, k0, prev0.Eof?);
          ok, prevc := false, prev0;
        } else if c == Some('%') {
          OpenTag(src, k0, prev0.Eof?);
          if !prev0.Was? { Output("print \""); }
          Output("<%");
          Rest(before, opening, "<%");
          prevc := Was('%');
          c := Nextc();
          p, k := Open, k0 + 3;
        } else {
          prevc := Eop;
          ok, c, p, k := CompileProgram(c.value, prev0, k0);
        }
      } else {
        if !prev0.Was? { Output("print \""); }
        Output("<");
        Rest(before, opening, "<");
        prevc := Was('<');
        PlainChar(src, k0, prev0.Eof?);
      }
    }

    /** A program embedded in the template; `c0` is the character behind <%. */
    method CompileProgram(c0: char, prev0: Prev, ghost k0: nat) returns (ok: bool, c: Option<char>, ghost p: Piece, ghost k: nat)
      requires Valid() && k0 + 2 < |src| && src[k0] == '<' && src[k0 + 1] == '%' && c0 != '%' && Reading(k0 + 2, Some(c0))
      modifies this`lexP, this`out, this`bufLen, buf
      ensures Valid()
      ensures ok ==> Takes(k0, prev0.Eof?, p, k, Eop) && Reading(k, c)
      ensures ok ==> Emitted() == old(Emitted()) + Step(p, ModeOf(prev0)).0 && Step(p, ModeOf(prev0)).1.AfterCode?
      ensures !ok ==> Parse(src[k0..], prev0.Eof?) == None
    {
      hide Parse, EndOf, Code;
      ghost var before := Emitted();
      assert before + "" == before;
      if prev0.Was? { Output("\"; "); }
      ghost var closing := if prev0.Was? then "\"; " else "";
      var kind := KindOf(c0);
      if kind.Stmt? { Pushback(Some(c0), k0 + 2); }
      ghost var start := lexP;
      assert start == k0 + BodyStart(c0);
      ok := ParseEmbeddedProgram(kind);
      ProgramTag(src, k0, prev0.Eof?);
      p, k, c := Char('<'), k0, None;
      if ok {
        ghost var e := EndOf(src[start..], 0).value;
        Rest(before, closing, Code(kind, src[start..][..e]));
        p, k := Program(kind, src[start..][..e]), start + e + 2;
        c := Nextc();
      }
    }

    /** What follows a `%` at the beginning of a line. */
    method CompileLine(ghost k0: nat) returns (ok: bool, c: Option<char>, prevc: Prev, ghost p: Piece, ghost k: nat)
      requires Valid() && k0 < |src| && Reading(k0, Some('%'))
      modifies this`lexP, this`out, this`bufLen, buf
      ensures Valid()
      ensures ok ==> Takes(k0, true, p, k, prevc) && Reading(k, c)
      ensures ok ==> Emitted() == old(Emitted()) + Step(p, LineStart).0 && ModeOf(prevc) == Step(p, LineStart).1
      ensures !ok ==> Parse(src[k0..], true) == None
    {
      hide Parse, LineEnd;
      ghost var before := Emitted();
      PercentLine(src, k0);
      ok, prevc, p, k := true, Eof, Percent, k0 + 2;
      c := Nextc();
      if c.None? {
        ok := false;
      } else if c == Some('%') {
        Output("print \"");
        OutputChar('%');
        Rest(before, "print \"", "%");
        prevc := Was('%');
        c := Nextc();
      } else {
        Pushback(c, k0 + 1);
        ok := ParseEmbeddedLine();
        if ok {
          ghost var e := LineEnd(src, k0 + 1).value;
          Rest(before, src[k0 + 1..e], "\n");
          p, k := Line(src[k0 + 1..e]), e + 1;
          c := Nextc();
        }
      }
    }
  }

  /** The pieces that are done, in front of those that are still to come. */
  function Joined(done: seq<Piece>, rest: Option<seq<Piece>>): Option<seq<Piece>> {
    if rest.Some? then Some(done + rest.value) else None
  }

  lemma Begin(src: string)
    ensures Generated([]) == ("", LineStart) && Parse(src, true) == Joined([], Parse(src[0..], true))
  {
    hide Parse;
    assert src[0..] == src;
    if Parse(src, true).Some? { assert [] + Parse(src, true).value == Parse(src, true).value; }
  }

  lemma Finished(src: string, done: seq<Piece>, bol: bool)
    requires Parse(src, true) == Joined(done, Parse("", bol))
    ensures Parse(src, true) == Some(done)
    ensures Compiled(done) == if Generated(done).1.InString? then Generated(done).0 + "\"" else Generated(done).0
  {
    hide Generated;
    assert Parse("", bol) == Some([]);
    assert done + [] == done;
  }

  lemma Commit(src: string, done: seq<Piece>, p: Piece, rest: Option<seq<Piece>>)
    requires Parse(src, true) == Joined(done, Then(p, rest))
    ensures Parse(src, true) == Joined(done + [p], rest)
  {
    hide Parse;
    if rest.Some? { assert done + ([p] + rest.value) == done + [p] + rest.value; }
  }

  lemma PlainChar(src: string, k: nat, bol: bool)
    requires k < |src| && !(src[k] == '<' && k + 1 < |src| && src[k + 1] == '%') && !(src[k] == '%' && bol)
    ensures Parse(src[k..], bol) == Then(Char(src[k]), Parse(src[k + 1..], src[k] == '\n'))
  {
    assert src[k..][1..] == src[k + 1..];
  }

  lemma OpenTag(src: string, k: nat, bol: bool)
    requires k + 1 < |src| && src[k] == '<' && src[k + 1] == '%'
    ensures k + 2 == |src| ==> Parse(src[k..], bol) == None
    ensures k + 2 < |src| && src[k + 2] == '%' ==> Parse(src[k..], bol) == Then(Open, Parse(src[k + 3..], false))
  {
    if k + 2 < |src| { assert src[k..][3..] == src[k + 3..]; }
  }

  lemma ProgramTag(src: string, k: nat, bol: bool)
    requires k + 2 < |src| && src[k] == '<' && src[k + 1] == '%' && src[k + 2] != '%'
    ensures var start := k + BodyStart(src[k + 2]);
            match EndOf(src[start..], 0)
            case None => Parse(src[k..], bol) == None
            case Some(e) =>
              start + e + 2 <= |src| &&
              Parse(src[k..], bol) == Then(Program(KindOf(src[k + 2]), src[start..][..e]), Parse(src[start + e + 2..], false))
  {
    hide EndOf;
    var t, start := src[k..], k + BodyStart(src[k + 2]);
    assert t[2] == src[k + 2] && t[BodyStart(t[2])..] == src[start..];
    if EndOf(src[start..], 0).Some? {
      var e := EndOf(src[start..], 0).value;
      assert src[start..][e + 2..] == src[start + e + 2..];
    }
  }

  lemma {:induction false} LineEndShift(src: string, k: nat, from: nat)
    requires k <= |src|
    ensures match LineEnd(src, k + from)
            case None => LineEnd(src[k..], from) == None
            case Some(e) => e >= k && LineEnd(src[k..], from) == Some(e - k)
    decreases |src| - from
  {
    if k + from < |src| && src[k + from] != '\n' {
      LineEndShift(src, k, from + 1);
    }
  }

  lemma PercentLine(src: string, k: nat)
    requires k < |src| && src[k] == '%'
    ensures k + 1 == |src| ==> Parse(src[k..], true) == None
    ensures k + 1 < |src| && src[k + 1] == '%' ==> Parse(src[k..], true) == Then(Percent, Parse(src[k + 2..], false))
    ensures k + 1 < |src| && src[k + 1] != '%' ==>
      match LineEnd(src, k + 1)
      case None => Parse(src[k..], true) == None
      case Some(e) => Parse(src[k..], true) == Then(Line(src[k + 1..e]), Parse(src[e + 1..], true))
  {
    hide LineEnd, Parse;
    PercentParsed(src[k..]);
    if k + 1 < |src| {
      LineEndShift(src, k, 1);
      Shifted(src, k, 2);
      if LineEnd(src, k + 1).Some? {
        Shifted(src, k, LineEnd(src, k + 1).value - k + 1);
        Between(src, k, LineEnd(src, k + 1).value);
      }
    }
  }

  lemma Shifted(src: string, k: nat, n: nat)
    requires k + n <= |src|
    ensures src[k..][n..] == src[k + n..]
  {
  }

  lemma Between(src: string, k: nat, e: nat)
    requires k + 1 <= e <= |src|
    ensures src[k..][1..e - k] == src[k + 1..e]
  {
  }

  lemma PercentParsed(t: string)
    requires t != "" && t[0] == '%'
    ensures |t| == 1 ==> Parse(t, true) == None
    ensures |t| > 1 && t[1] == '%' ==> Parse(t, true) == Then(Percent, Parse(t[2..], false))
    ensures |t| > 1 && t[1] != '%' ==>
      match LineEnd(t, 1)
      case None => Parse(t, true) == None
      case Some(e) => Parse(t, true) == Then(Line(t[1..e]), Parse(t[e + 1..], true))
  {
    hide LineEnd, EndOf, Then;
  }

  lemma ExprCode(before: string, raw: string)
    ensures before + "print((" + Copied(Expr, raw, |raw|) + ")); " == before + Code(Expr, raw)
  {
    hide Copied;
    Rest(before, "print((", Copied(Expr, raw, |raw|));
    Rest(before, "print((" + Copied(Expr, raw, |raw|), ")); ");
  }

  lemma Rest(a: string, b: string, c: string)
    ensures a + b + c == a + (b + c)
  {
  }

  lemma LineStep(t: string, k: nat)
    ensures k >= |t| ==> LineEnd(t, k) == None
    ensures k < |t| ==> LineEnd(t, k) == if t[k] == '\n' then Some(k) else LineEnd(t, k + 1)
  {
  }

  lemma CopiedNone(kind: Kind, body: string)
    ensures Copied(kind, body, 0) == ""
  {
  }

  lemma CopiedStep(kind: Kind, body: string, k: nat)
    requires k < |body|
    ensures Copied(kind, body, k + 1) == Copied(kind, body, k) +
              (if Dropped(body, k) || (kind.Comment? && body[k] != '\n') then "" else [body[k]])
  {
  }

  /** One step of the scan for the end delimiter. */
  lemma ScanStep(kind: Kind, body: string, k: nat)
    requires k < |body|
    ensures body[k] == '%' && k + 1 < |body| && body[k + 1] == '>' && k > 0 && body[k - 1] == '%' ==>
      Copied(kind, body, k + 2) == Copied(kind, body, k) + (if kind.Comment? then "" else ">") && EndOf(body, k) == EndOf(body, k + 2)
    ensures body[k] == '%' && k + 1 < |body| && body[k + 1] == '>' && !(k > 0 && body[k - 1] == '%') ==>
      EndsAt(body, k) && EndOf(body, k) == Some(k)
    ensures body[k] == '%' && k + 1 < |body| && body[k + 1] != '>' ==>
      Copied(kind, body, k + 1) == Copied(kind, body, k) + (if kind.Comment? then "" else "%") && EndOf(body, k) == EndOf(body, k + 1)
    ensures body[k] != '%' ==>
      EndOf(body, k) == EndOf(body, k + 1) && Copied(kind, body, k + 1) == Copied(kind, body, k) + (if body[k] == '\n' || !kind.Comment? then [body[k]] else "")
  {
    hide Copied;
    CopiedStep(kind, body, k);
    if k + 1 < |body| { CopiedStep(kind, body, k + 1); }
    var kept := Copied(kind, body, k);
    assert kept + "" == kept;
  }

  lemma NoEnd(body: string, k: nat)
    requires k + 1 >= |body|
    ensures EndOf(body, k) == None
  {
  }

  /** Only what lies before the end matters for what is copied. */
  lemma {:induction false} CopiedPrefix(kind: Kind, body: string, e: nat, k: nat)
    requires EndsAt(body, e) && k <= e
    ensures Copied(kind, body[..e], k) == Copied(kind, body, k)
  {
    if k > 0 {
      CopiedPrefix(kind, body, e, k - 1);
      assert Dropped(body[..e], k - 1) <==> Dropped(body, k - 1);
    }
  }
}
