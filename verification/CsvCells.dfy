/** Multi-value CSV cells: lists of integers, strings and (program, ancode) pairs printed into one cell
    and parsed back. */
module CsvCells {
  import opened Options
  import opened Names

  // ----- strings -----

  /** White space as unicode.IsSpace knows it. */
  predicate IsSpace(c: char) {
    || c == ' ' || '\t' <= c <= '\r' || c == '\U{0085}' || c == '\U{00A0}' || c == '\U{1680}'
    || '\U{2000}' <= c <= '\U{200A}' || c == '\U{2028}' || c == '\U{2029}' || c == '\U{202F}' || c == '\U{205F}' || c == '\U{3000}'
  }

  function TrimLeft(s: string): string {
    if s == [] || !IsSpace(s[0]) then s else TrimLeft(s[1..])
  }

  function TrimRight(s: string): string {
    if s == [] || !IsSpace(s[|s| - 1]) then s else TrimRight(s[..|s| - 1])
  }

  function TrimSpace(s: string): string { TrimRight(TrimLeft(s)) }

  /** Nothing to trim. */
  predicate Trimmed(s: string) { s == [] || (!IsSpace(s[0]) && !IsSpace(s[|s| - 1])) }

  function Join(parts: seq<string>): string {
    if parts == [] then [] else if |parts| == 1 then parts[0] else parts[0] + [';'] + Join(parts[1..])
  }

  /** The first position of c, |s| if there is none. */
  function IndexOf(s: string, c: char): (i: nat)
    ensures i <= |s| && (i < |s| ==> s[i] == c) && forall j :: 0 <= j < i ==> s[j] != c
  {
    if s == [] || s[0] == c then 0 else 1 + IndexOf(s[1..], c)
  }

  function Split(s: string): seq<string>
    decreases |s|
  {
    var i := IndexOf(s, ';');
    if i == |s| then [s] else [s[..i]] + Split(s[i + 1..])
  }

  /** A part that is neither trimmed away, skipped nor split. */
  predicate Solid(p: string) { p != [] && Trimmed(p) && ';' !in p }

  ghost predicate AllSolid(parts: seq<string>) { forall i :: 0 <= i < |parts| ==> Solid(parts[i]) }

  lemma {:induction false} TrimIsTrimmed(s: string)
    ensures Trimmed(TrimSpace(s)) && (forall c :: c in TrimSpace(s) ==> c in s)
    ensures Trimmed(s) ==> TrimSpace(s) == s
  {
    LeftTrimmed(s);
    RightTrimmed(TrimLeft(s));
  }

  lemma {:induction false} LeftTrimmed(s: string)
    ensures TrimLeft(s) == [] || !IsSpace(TrimLeft(s)[0])
    ensures forall c :: c in TrimLeft(s) ==> c in s
  {
    if s != [] && IsSpace(s[0]) { LeftTrimmed(s[1..]); }
  }

  lemma {:induction false} RightTrimmed(s: string)
    ensures var r := TrimRight(s);
            && r <= s
            && (r == [] || !IsSpace(r[|r| - 1]))
            && (r != [] ==> r[0] == s[0])
            && forall c :: c in r ==> c in s
  {
    if s != [] && IsSpace(s[|s| - 1]) { RightTrimmed(s[..|s| - 1]); }
  }

  /** Splitting undoes joining. */
  lemma {:induction false} SplitJoin(parts: seq<string>)
    requires parts != [] && forall i :: 0 <= i < |parts| ==> ';' !in parts[i]
    ensures Split(Join(parts)) == parts
  {
    var s, p := Join(parts), parts[0];
    if |parts| == 1 {
      assert IndexOf(p, ';') == |p|;
      assert parts == [p];
    } else {
      assert s == p + [';'] + Join(parts[1..]);
      assert s[|p|] == ';' && forall j :: 0 <= j < |p| ==> s[j] == p[j];
      assert IndexOf(s, ';') == |p|;
      assert s[..|p|] == p && s[|p| + 1..] == Join(parts[1..]);
      SplitJoin(parts[1..]);
      assert parts == [p] + parts[1..];
    }
  }

  lemma {:induction false} SplitHasNoSeparator(s: string)
    ensures forall i :: 0 <= i < |Split(s)| ==> ';' !in Split(s)[i]
    decreases |s|
  {
    var i := IndexOf(s, ';');
    if i < |s| { SplitHasNoSeparator(s[i + 1..]); }
  }

  /** A joined list of solid parts has nothing to trim. */
  lemma {:induction false} JoinTrimmed(parts: seq<string>)
    requires AllSolid(parts)
    ensures Trimmed(Join(parts)) && (parts != [] ==> Join(parts) != [])
  {
    if |parts| > 1 {
      assert AllSolid(parts[1..]);
      JoinTrimmed(parts[1..]);
      var s, rest := Join(parts), Join(parts[1..]);
      assert Solid(parts[0]);
      assert s[0] == parts[0][0] && s[|s| - 1] == rest[|rest| - 1];
    } else if |parts| == 1 {
      assert Solid(parts[0]);
    }
  }

  // ----- the parts of a cell -----

  /** The non-blank parts, trimmed. */
  function NonBlank(parts: seq<string>): seq<string> {
    if parts == [] then []
    else
      var front, t := NonBlank(parts[..|parts| - 1]), TrimSpace(parts[|parts| - 1]);
      if t == [] then front else front + [t]
  }

  function Parts(s: string): seq<string> {
    if TrimSpace(s) == [] then [] else NonBlank(Split(TrimSpace(s)))
  }

  lemma {:induction false} NonBlankKeeps(parts: seq<string>)
    requires AllSolid(parts)
    ensures NonBlank(parts) == parts
  {
    if parts != [] {
      var front, last := parts[..|parts| - 1], parts[|parts| - 1];
      assert forall i :: 0 <= i < |front| ==> front[i] == parts[i];
      NonBlankKeeps(front);
      assert Solid(last);
      TrimIsTrimmed(last);
      assert parts == front + [last];
    }
  }

  lemma {:induction false} NonBlankSolid(parts: seq<string>)
    requires forall i :: 0 <= i < |parts| ==> ';' !in parts[i]
    ensures AllSolid(NonBlank(parts))
  {
    if parts != [] {
      var front, last := parts[..|parts| - 1], parts[|parts| - 1];
      assert forall i :: 0 <= i < |front| ==> front[i] == parts[i];
      NonBlankSolid(front);
      TrimIsTrimmed(last);
    }
  }

  /** Printing solid parts and reading the cell gives them back. */
  lemma PartsOfJoin(parts: seq<string>)
    requires AllSolid(parts)
    ensures Parts(Join(parts)) == parts
  {
    JoinTrimmed(parts);
    TrimIsTrimmed(Join(parts));
    if parts != [] {
      forall i | 0 <= i < |parts| ensures ';' !in parts[i] { assert Solid(parts[i]); }
      SplitJoin(parts);
      NonBlankKeeps(parts);
    }
  }

  /** Whatever the cell, its parts are solid. */
  lemma PartsSolid(s: string)
    ensures AllSolid(Parts(s))
  {
    SplitHasNoSeparator(TrimSpace(s));
    NonBlankSolid(Split(TrimSpace(s)));
  }

  // ----- numbers -----

  const MIN_INT := -0x8000_0000_0000_0000
  const MAX_INT := 0x7fff_ffff_ffff_ffff

  predicate IsInt(n: int) { MIN_INT <= n <= MAX_INT }

  predicate IsDigit(c: char) { '0' <= c <= '9' }

  function DigitOf(d: nat): char
    requires d < 10
  {
    '0' + d as char
  }

  function Digits(n: nat): string {
    if n < 10 then [DigitOf(n)] else Digits(n / 10) + [DigitOf(n % 10)]
  }

  function Itoa(n: int): string { if n < 0 then ['-'] + Digits(-n) else Digits(n) }

  predicate AllDigits(s: string) { forall i :: 0 <= i < |s| ==> IsDigit(s[i]) }

  function Value(s: string): nat
    requires AllDigits(s)
  {
    if s == [] then 0 else 10 * Value(s[..|s| - 1]) + (s[|s| - 1] as int - '0' as int)
  }

  /** A sign and digits within the range of a 64-bit integer. */
  function Atoi(s: string): Option<int> {
    var negative := s != [] && s[0] == '-';
    var digits := if s != [] && (s[0] == '-' || s[0] == '+') then s[1..] else s;
    if digits == [] || !AllDigits(digits) then None
    else
      var n := if negative then 0 - Value(digits) else Value(digits) + 0;
      if IsInt(n) then Some(n) else None
  }

  lemma {:induction false} DigitsValue(n: nat)
    ensures Digits(n) != [] && AllDigits(Digits(n)) && Value(Digits(n)) == n
  {
    if n >= 10 {
      DigitsValue(n / 10);
      var s := Digits(n);
      assert s[..|s| - 1] == Digits(n / 10);
    } else {
      assert Digits(n)[..0] == "";
    }
  }

  /** Decimal notation: a last digit appends itself, and only zero begins with a zero. */
  lemma {:induction false} DecimalNotation(n: nat, d: nat)
    requires d < 10
    ensures n > 0 ==> Digits(10 * n + d) == Digits(n) + [DigitOf(d)]
    ensures Digits(n) != [] && (Digits(n)[0] == '0' <==> n == 0) && (n == 0 ==> Digits(n) == "0")
  {
    assert (10 * n + d) / 10 == n && (10 * n + d) % 10 == d;
    if n >= 10 {
      DecimalNotation(n / 10, n % 10);
      assert n == 10 * (n / 10) + n % 10;
    }
  }

  /** Leading zeros do not count. */
  lemma {:induction false} LeadingZero(s: string)
    requires AllDigits(s)
    ensures AllDigits(['0'] + s) && Value(['0'] + s) == Value(s)
  {
    var z := ['0'] + s;
    if s == [] {
      assert z[..0] == [];
    } else {
      assert z[..|z| - 1] == ['0'] + s[..|s| - 1];
      LeadingZero(s[..|s| - 1]);
    }
  }

  /** A minus sign negates what is read, a plus sign does not change it. */
  lemma SignsRead(s: string)
    requires s != [] && AllDigits(s) && IsInt(Value(s))
    ensures Atoi(s) == Atoi(['+'] + s) == Some(Value(s)) && Atoi(['-'] + s) == Some(0 - Value(s))
  {
    assert (['+'] + s)[1..] == s && (['-'] + s)[1..] == s;
  }

  /** A printed number reads back as itself, and is a solid part without ':'. */
  lemma NumberRoundTrip(n: int)
    requires IsInt(n)
    ensures Atoi(Itoa(n)) == Some(n) && Solid(Itoa(n)) && ':' !in Itoa(n)
  {
    var digits := Digits(if n < 0 then -n else n);
    DigitsValue(if n < 0 then -n else n);
    var s := Itoa(n);
    if n < 0 { assert s[1..] == digits; } else { assert IsDigit(s[0]); }
    forall i | 0 <= i < |s| ensures IsDigit(s[i]) || s[i] == '-' { if n < 0 && i > 0 { assert s[i] == digits[i - 1]; } }
  }

  // ----- cells of any element type -----

  function PrintAll<T>(xs: seq<T>, print1: T -> string): seq<string> {
    if xs == [] then [] else PrintAll(xs[..|xs| - 1], print1) + [print1(xs[|xs| - 1])]
  }

  /** All parts read, None if one is unreadable. */
  function ParseAll<T>(parts: seq<string>, parse1: string -> Option<T>): Option<seq<T>> {
    if parts == [] then Some([])
    else
      var front, x := ParseAll(parts[..|parts| - 1], parse1), parse1(parts[|parts| - 1]);
      if front.Some? && x.Some? then Some(front.value + [x.value]) else None
  }

  function Printed<T>(xs: seq<T>, print1: T -> string): string { Join(PrintAll(xs, print1)) }

  function Parsed<T>(s: string, parse1: string -> Option<T>): Option<seq<T>> { ParseAll(Parts(s), parse1) }

  method PrintCell<T>(xs: seq<T>, print1: T -> string) returns (s: string)
    ensures s == Printed(xs, print1)
  {
    if |xs| == 0 { return ""; }
    var parts := [];
    for i := 0 to |xs|
      invariant parts == PrintAll(xs[..i], print1)
    {
      assert xs[..i + 1][..i] == xs[..i];
      parts := parts + [print1(xs[i])];
    }
    assert xs[..|xs|] == xs;
    s := Join(parts);
  }

  lemma ParseAppend<T>(parts: seq<string>, p: string, parse1: string -> Option<T>)
    ensures var front, x := ParseAll(parts, parse1), parse1(p);
            ParseAll(parts + [p], parse1) == if front.Some? && x.Some? then Some(front.value + [x.value]) else None
  {
    var all := parts + [p];
    assert all[..|all| - 1] == parts;
  }

  lemma {:induction false} ParsePrefix<T>(parts: seq<string>, k: nat, parse1: string -> Option<T>)
    requires k <= |parts| && ParseAll(parts[..k], parse1) == None
    ensures ParseAll(parts, parse1) == None
  {
    if k < |parts| {
      assert parts[..|parts| - 1][..k] == parts[..k];
      ParsePrefix(parts[..|parts| - 1], k, parse1);
    } else {
      assert parts[..k] == parts;
    }
  }

  lemma {:induction false} NonBlankPrefix(parts: seq<string>, k: nat)
    requires k <= |parts|
    ensures |NonBlank(parts[..k])| <= |NonBlank(parts)| && NonBlank(parts)[..|NonBlank(parts[..k])|] == NonBlank(parts[..k])
  {
    if k < |parts| {
      assert parts[..|parts| - 1][..k] == parts[..k];
      NonBlankPrefix(parts[..|parts| - 1], k);
    } else {
      assert parts[..k] == parts;
    }
  }

  lemma NonBlankStep(parts: seq<string>, i: nat)
    requires i < |parts|
    ensures var p, before := TrimSpace(parts[i]), NonBlank(parts[..i]);
            NonBlank(parts[..i + 1]) == if p == [] then before else before + [p]
  {
    assert parts[..i + 1][..i] == parts[..i];
  }

  lemma UnreadablePart<T>(parts: seq<string>, i: nat, parse1: string -> Option<T>)
    requires i < |parts| && TrimSpace(parts[i]) != [] && parse1(TrimSpace(parts[i])) == None
    ensures ParseAll(NonBlank(parts), parse1) == None
  {
    var before, all := NonBlank(parts[..i]), NonBlank(parts);
    NonBlankStep(parts, i);
    NonBlankPrefix(parts, i + 1);
    ParseAppend(before, TrimSpace(parts[i]), parse1);
    ParsePrefix(all, |before| + 1, parse1);
  }

  /** The elements of a cell; an unreadable part fails the whole cell. */
  method ParseCell<T>(s: string, parse1: string -> Option<T>) returns (r: Option<seq<T>>)
    ensures r == Parsed(s, parse1)
  {
    var t := TrimSpace(s);
    if t == [] { return Some([]); }
    var parts := Split(t);
    var out := [];
    for i := 0 to |parts|
      invariant ParseAll(NonBlank(parts[..i]), parse1) == Some(out)
    {
      var p := TrimSpace(parts[i]);
      NonBlankStep(parts, i);
      if p == [] { continue; }
      ParseAppend(NonBlank(parts[..i]), p, parse1);
      var x := parse1(p);
      if x.None? {
        UnreadablePart(parts, i, parse1);
        return None;
      }
      out := out + [x.value];
    }
    assert parts[..|parts|] == parts;
    return Some(out);
  }

  /** x can be told from its neighbours and read back. */
  ghost predicate Readable<T(!new)>(x: T, print1: T -> string, parse1: string -> Option<T>) {
    Solid(print1(x)) && parse1(print1(x)) == Some(x)
  }

  lemma {:induction false} PrintedParts<T(!new)>(xs: seq<T>, print1: T -> string, parse1: string -> Option<T>)
    requires forall i :: 0 <= i < |xs| ==> Readable(xs[i], print1, parse1)
    ensures ParseAll(PrintAll(xs, print1), parse1) == Some(xs) && AllSolid(PrintAll(xs, print1))
  {
    if xs != [] {
      var front, last := xs[..|xs| - 1], xs[|xs| - 1];
      PrintedParts(front, print1, parse1);
      assert Readable(last, print1, parse1);
      ParseAppend(PrintAll(front, print1), print1(last), parse1);
      assert xs == front + [last];
    }
  }

  lemma CellRoundTrip<T(!new)>(xs: seq<T>, print1: T -> string, parse1: string -> Option<T>)
    requires forall i :: 0 <= i < |xs| ==> Readable(xs[i], print1, parse1)
    ensures Parsed(Printed(xs, print1), parse1) == Some(xs)
  {
    PrintedParts(xs, print1, parse1);
    PartsOfJoin(PrintAll(xs, print1));
  }

  /** Every element read comes from a solid part. */
  lemma {:induction false} ParsedFrom<T>(parts: seq<string>, parse1: string -> Option<T>)
    requires AllSolid(parts) && ParseAll(parts, parse1).Some?
    ensures |ParseAll(parts, parse1).value| == |parts|
    ensures forall i :: 0 <= i < |parts| ==> parse1(parts[i]) == Some(ParseAll(parts, parse1).value[i])
  {
    if parts != [] {
      var front := parts[..|parts| - 1];
      assert forall i :: 0 <= i < |front| ==> front[i] == parts[i];
      ParsedFrom(front, parse1);
    }
  }

  // ----- integer cells -----

  method Ints2S(xs: seq<int>) returns (s: string)
    ensures s == Printed(xs, Itoa)
  {
    s := PrintCell(xs, Itoa);
  }

  method S2Ints(s: string) returns (r: Option<seq<int>>)
    ensures r == Parsed(s, Atoi)
  {
    r := ParseCell(s, Atoi);
  }

  /** Main result: a list of integers survives printing and parsing exactly if all fit in 64 bits. */
  lemma IntsRoundTripExact(xs: seq<int>)
    ensures Parsed(Printed(xs, Itoa), Atoi) == Some(xs) <==> forall i :: 0 <= i < |xs| ==> IsInt(xs[i])
  {
    if forall i :: 0 <= i < |xs| ==> IsInt(xs[i]) {
      forall i | 0 <= i < |xs| ensures Readable(xs[i], Itoa, Atoi) { NumberRoundTrip(xs[i]); }
      CellRoundTrip(xs, Itoa, Atoi);
    }
    if Parsed(Printed(xs, Itoa), Atoi) == Some(xs) { ParsedAreInts(Printed(xs, Itoa), xs); }
  }

  lemma ParsedAreInts(s: string, xs: seq<int>)
    requires Parsed(s, Atoi) == Some(xs)
    ensures forall i :: 0 <= i < |xs| ==> IsInt(xs[i])
  {
    PartsSolid(s);
    ParsedFrom(Parts(s), Atoi);
  }

  /** Parsing, printing and parsing again is parsing once. */
  lemma IntsStable(s: string, xs: seq<int>)
    requires Parsed(s, Atoi) == Some(xs)
    ensures Parsed(Printed(xs, Itoa), Atoi) == Some(xs)
  {
    ParsedAreInts(s, xs);
    IntsRoundTripExact(xs);
  }

  // ----- string cells -----

  method S2Strs(s: string) returns (out: seq<string>)
    ensures out == Parts(s)
  {
    var t := TrimSpace(s);
    if t == [] { return []; }
    var parts := Split(t);
    out := [];
    for i := 0 to |parts|
      invariant out == NonBlank(parts[..i])
    {
      assert parts[..i + 1][..i] == parts[..i];
      var p := TrimSpace(parts[i]);
      if p != [] { out := out + [p]; }
    }
    assert parts[..|parts|] == parts;
  }

  /** A list of strings survives exactly if every string is trimmed, not empty and free of ';'. */
  lemma StringsRoundTripExact(xs: seq<string>)
    ensures Parts(Join(xs)) == xs <==> AllSolid(xs)
  {
    PartsSolid(Join(xs));
    if AllSolid(xs) { PartsOfJoin(xs); }
  }

  lemma StringsStable(s: string)
    ensures Parts(Join(Parts(s))) == Parts(s)
  {
    PartsSolid(s);
    PartsOfJoin(Parts(s));
  }

  // ----- (program, ancode) cells -----

  function PrintEntry(e: Primuss): string { e.program + [':'] + Itoa(e.ancode) }

  function ParseEntry(p: string): Option<Primuss> {
    var i := IndexOf(p, ':');
    if i == |p| then None
    else
      var n := Atoi(TrimSpace(p[i + 1..]));
      if n.Some? then Some(Primuss(TrimSpace(p[..i]), n.value)) else None
  }

  method PrimussAncodes2S(es: seq<Primuss>) returns (s: string)
    ensures s == Printed(es, PrintEntry)
  {
    s := PrintCell(es, PrintEntry);
  }

  method S2PrimussAncodes(s: string) returns (r: Option<seq<Primuss>>)
    ensures r == Parsed(s, ParseEntry)
  {
    r := ParseCell(s, ParseEntry);
  }

  /** An entry whose program can be told from the rest of the cell. */
  predicate Plain(e: Primuss) { Trimmed(e.program) && ';' !in e.program && ':' !in e.program && IsInt(e.ancode) }

  ghost predicate AllPlain(es: seq<Primuss>) { forall i :: 0 <= i < |es| ==> Plain(es[i]) }

  /** The first colon ends a program without one. */
  lemma SplitAtColon(program: string, n: string)
    requires ':' !in program
    ensures var s := program + ":" + n;
            IndexOf(s, ':') == |program| && |program| < |s| && s[..|program|] == program && s[|program| + 1..] == n
  {
    var s, q := program + ":" + n, |program|;
    assert s[q] == ':' && forall j :: 0 <= j < q ==> s[j] == program[j];
  }

  lemma EntryIsSolid(program: string, n: string)
    requires Trimmed(program) && ';' !in program && Solid(n)
    ensures Solid(program + ":" + n)
  {
    var s, q := program + ":" + n, |program|;
    assert s[|s| - 1] == n[|n| - 1] && s[0] == if q == 0 then ':' else program[0];
  }

  lemma EntryRoundTrip(e: Primuss)
    requires Plain(e)
    ensures ParseEntry(PrintEntry(e)) == Some(e) && Solid(PrintEntry(e))
  {
    var n := Itoa(e.ancode);
    NumberRoundTrip(e.ancode);
    SplitAtColon(e.program, n);
    EntryIsSolid(e.program, n);
    TrimIsTrimmed(e.program);
    TrimIsTrimmed(n);
  }

  lemma ParsedIsPlain(p: string)
    requires Solid(p)
    ensures ParseEntry(p).Some? ==> Plain(ParseEntry(p).value)
  {
    var i := IndexOf(p, ':');
    if i < |p| {
      TrimIsTrimmed(p[..i]);
    }
  }

  /** A list of entries survives exactly if every program is trimmed and holds neither ';' nor ':'
      (and the ancodes fit in 64 bits). */
  lemma EntriesRoundTripExact(es: seq<Primuss>)
    ensures Parsed(Printed(es, PrintEntry), ParseEntry) == Some(es) <==> AllPlain(es)
  {
    if AllPlain(es) {
      forall i | 0 <= i < |es| ensures Readable(es[i], PrintEntry, ParseEntry) {
        assert Plain(es[i]);
        EntryRoundTrip(es[i]);
      }
      CellRoundTrip(es, PrintEntry, ParseEntry);
    }
    if Parsed(Printed(es, PrintEntry), ParseEntry) == Some(es) { ParsedArePlain(Printed(es, PrintEntry), es); }
  }

  lemma ParsedArePlain(s: string, es: seq<Primuss>)
    requires Parsed(s, ParseEntry) == Some(es)
    ensures AllPlain(es)
  {
    var parts := Parts(s);
    PartsSolid(s);
    ParsedFrom(parts, ParseEntry);
    forall i | 0 <= i < |es| ensures Plain(es[i]) {
      assert ParseEntry(parts[i]) == Some(es[i]) && Solid(parts[i]);
      ParsedIsPlain(parts[i]);
    }
  }

  lemma EntriesStable(s: string, es: seq<Primuss>)
    requires Parsed(s, ParseEntry) == Some(es)
    ensures Parsed(Printed(es, PrintEntry), ParseEntry) == Some(es)
  {
    ParsedArePlain(s, es);
    EntriesRoundTripExact(es);
  }
}
