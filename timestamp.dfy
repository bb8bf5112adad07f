/**
 * The deletion-timestamp parser of the reaper loop: every `Z` is removed from the
 * string, and the rest goes through `datetime.strptime` with the pattern
 * `%Y-%m-%dT%H:%M:%S`.
 *
 * CPython compiles that pattern into a case-insensitive regular expression with one
 * group per directive (`%Y` four digits, `%m` `1[0-2]|0[1-9]|[1-9]`, `%d`
 * `3[01]|[12]\d|0[1-9]|[1-9]| [1-9]`, `%H` `2[0-3]|[0-1]\d|\d`, `%M` `[0-5]\d|\d`,
 * `%S` `6[0-1]|[0-5]\d|\d`), matches it at the start of the string, refuses any
 * unconverted trailing text, and then builds a `datetime`, which refuses year 0,
 * a day past the end of its month and a leap second. Because no field's text can
 * contain the separator that follows it, the match splits the string at the first
 * `-`, the next `-`, the first `T` or `t`, the first `:` and the next `:`, and each
 * piece must be a word of its field's language.
 */
module Timestamp {
  import opened Wrappers
  import opened Calendar

  // ---------------------------------------------------------------- replace("Z", "")

  /** `s.replace("Z", "")`: the string with every `Z` removed. */
  function StripZ(s: string): string {
    if s == [] then []
    else (if s[0] == 'Z' then [] else [s[0]]) + StripZ(s[1..])
  }

  /** What `replace` leaves: the characters of `s` other than `Z`, and no `Z`. */
  lemma {:induction false} StripZKeeps(s: string)
    ensures 'Z' !in StripZ(s) && |StripZ(s)| <= |s|
    ensures forall c :: c in StripZ(s) <==> c in s && c != 'Z'
  {
    if s != [] {
      StripZKeeps(s[1..]);
      assert s == [s[0]] + s[1..];
    }
  }

  lemma {:induction false} StripZAppend(a: string, b: string)
    ensures StripZ(a + b) == StripZ(a) + StripZ(b)
  {
    if a == [] {
      assert a + b == b;
    } else {
      assert (a + b)[0] == a[0];
      assert (a + b)[1..] == a[1..] + b;
      StripZAppend(a[1..], b);
    }
  }

  lemma {:induction false} StripZUnchanged(s: string)
    requires 'Z' !in s
    ensures StripZ(s) == s
  {
    if s != [] {
      StripZUnchanged(s[1..]);
    }
  }

  /** Removing `Z` twice removes nothing more. */
  lemma StripZIdempotent(s: string)
    ensures StripZ(StripZ(s)) == StripZ(s)
  {
    StripZKeeps(s);
    StripZUnchanged(StripZ(s));
  }

  // ---------------------------------------------------------------- splitting

  predicate NoneIn(s: string, seps: set<char>) {
    forall i :: 0 <= i < |s| ==> s[i] !in seps
  }

  datatype Split = Split(before: string, sep: char, after: string)

  /** Cuts `s` at its first character from `seps`, if there is one. */
  function SplitAtFirst(s: string, seps: set<char>): Option<Split> {
    if s == [] then None
    else if s[0] in seps then Some(Split([], s[0], s[1..]))
    else match SplitAtFirst(s[1..], seps)
      case None => None
      case Some(sp) => Some(Split([s[0]] + sp.before, sp.sep, sp.after))
  }

  /** A cut puts back together to the string, at a separator, with no separator before it; no cut means no separator. */
  lemma {:induction false} SplitAtFirstCuts(s: string, seps: set<char>)
    ensures SplitAtFirst(s, seps).Some? ==>
      var sp := SplitAtFirst(s, seps).value;
      s == sp.before + [sp.sep] + sp.after && sp.sep in seps && NoneIn(sp.before, seps)
    ensures SplitAtFirst(s, seps).None? ==> NoneIn(s, seps)
  {
    if s != [] && s[0] !in seps {
      SplitAtFirstCuts(s[1..], seps);
      assert s == [s[0]] + s[1..];
    }
  }

  lemma {:induction false} SplitAtFirstOf(a: string, c: char, b: string, seps: set<char>)
    requires NoneIn(a, seps) && c in seps
    ensures SplitAtFirst(a + [c] + b, seps) == Some(Split(a, c, b))
  {
    if a != [] {
      assert (a + [c] + b)[1..] == a[1..] + [c] + b;
      SplitAtFirstOf(a[1..], c, b, seps);
      assert [a[0]] + a[1..] == a;
    }
  }

  // ---------------------------------------------------------------- field languages

  predicate IsDigit(c: char) { '0' <= c <= '9' }

  /** `%Y`: exactly four digits. */
  predicate YearToken(t: string) {
    |t| == 4 && IsDigit(t[0]) && IsDigit(t[1]) && IsDigit(t[2]) && IsDigit(t[3])
  }

  /** `%m`: `1[0-2]|0[1-9]|[1-9]`. */
  predicate MonthToken(t: string) {
    (|t| == 2 && t[0] == '1' && '0' <= t[1] <= '2')
    || (|t| == 2 && t[0] == '0' && '1' <= t[1] <= '9')
    || (|t| == 1 && '1' <= t[0] <= '9')
  }

  /** `%d`: `3[01]|[12]\d|0[1-9]|[1-9]| [1-9]`. */
  predicate DayToken(t: string) {
    (|t| == 2 && t[0] == '3' && '0' <= t[1] <= '1')
    || (|t| == 2 && '1' <= t[0] <= '2' && IsDigit(t[1]))
    || (|t| == 2 && t[0] == '0' && '1' <= t[1] <= '9')
    || (|t| == 1 && '1' <= t[0] <= '9')
    || (|t| == 2 && t[0] == ' ' && '1' <= t[1] <= '9')
  }

  /** `%H`: `2[0-3]|[0-1]\d|\d`. */
  predicate HourToken(t: string) {
    (|t| == 2 && t[0] == '2' && '0' <= t[1] <= '3')
    || (|t| == 2 && '0' <= t[0] <= '1' && IsDigit(t[1]))
    || (|t| == 1 && IsDigit(t[0]))
  }

  /** `%M`: `[0-5]\d|\d`. */
  predicate MinuteToken(t: string) {
    (|t| == 2 && '0' <= t[0] <= '5' && IsDigit(t[1]))
    || (|t| == 1 && IsDigit(t[0]))
  }

  /** `%S`: `6[0-1]|[0-5]\d|\d`. */
  predicate SecondToken(t: string) {
    (|t| == 2 && t[0] == '6' && '0' <= t[1] <= '1')
    || (|t| == 2 && '0' <= t[0] <= '5' && IsDigit(t[1]))
    || (|t| == 1 && IsDigit(t[0]))
  }

  function CharValue(c: char): int {
    if IsDigit(c) then c as int - '0' as int else 0
  }

  /**
   * The decimal value `int()` gives a field's text; a leading space (which only
   * the day field admits) contributes nothing, as `int()` strips it.
   */
  function TokenValue(t: string): int
    decreases |t|
  {
    if t == [] then 0 else TokenValue(t[..|t| - 1]) * 10 + CharValue(t[|t| - 1])
  }

  // ---------------------------------------------------------------- the pattern

  /** The strings the pattern can match, cut into the text of each field. */
  datatype Fields = Fields(year: string, month: string, day: string, sep: char,
                           hour: string, minute: string, second: string)

  function Render(f: Fields): string {
    f.year + ['-'] + (f.month + ['-'] + (f.day + [f.sep] + (f.hour + [':'] + (f.minute + [':'] + f.second))))
  }

  /** No field's text holds the separator that follows it. */
  predicate Separable(f: Fields) {
    NoneIn(f.year, {'-'}) && NoneIn(f.month, {'-'}) && NoneIn(f.day, {'T', 't'})
    && f.sep in {'T', 't'} && NoneIn(f.hour, {':'}) && NoneIn(f.minute, {':'})
  }

  /** Every field's text is a word of its directive's language; `T` matches either case. */
  predicate WellFormed(f: Fields) {
    YearToken(f.year) && MonthToken(f.month) && DayToken(f.day) && f.sep in {'T', 't'}
    && HourToken(f.hour) && MinuteToken(f.minute) && SecondToken(f.second)
  }

  function Meaning(f: Fields): CivilTime {
    CivilTime(TokenValue(f.year), TokenValue(f.month), TokenValue(f.day),
              TokenValue(f.hour), TokenValue(f.minute), TokenValue(f.second))
  }

  // ---------------------------------------------------------------- cutting at the separators

  /** The literal separators of the pattern, in order; the match ignores case, so `T` is also `t`. */
  const Separators: seq<set<char>> := [{'-'}, {'-'}, {'T', 't'}, {':'}, {':'}]

  /** The texts between the separators, and the separators themselves. */
  datatype Pieces = Pieces(texts: seq<string>, seps: seq<char>)

  /** Cuts `s` at its first character from `stops[0]`, what follows at its first from `stops[1]`, and so on. */
  function CutAll(s: string, stops: seq<set<char>>): (r: Option<Pieces>)
    ensures r.Some? ==> |r.value.texts| == |stops| + 1 && |r.value.seps| == |stops|
    decreases |stops|
  {
    if stops == [] then Some(Pieces([s], []))
    else match SplitAtFirst(s, stops[0])
      case None => None
      case Some(sp) =>
        match CutAll(sp.after, stops[1..])
        case None => None
        case Some(p) => Some(Pieces([sp.before] + p.texts, [sp.sep] + p.seps))
  }

  /** Puts texts and separators back together, alternately. */
  function Join(texts: seq<string>, seps: seq<char>): string
    requires |texts| == |seps| + 1
    decreases |seps|
  {
    if seps == [] then texts[0] else texts[0] + [seps[0]] + Join(texts[1..], seps[1..])
  }

  /** Each separator is from its stop set, and no text holds a character of the stop set after it. */
  predicate Cuttable(texts: seq<string>, seps: seq<char>, stops: seq<set<char>>) {
    |texts| == |stops| + 1 && |seps| == |stops|
    && forall i :: 0 <= i < |stops| ==> NoneIn(texts[i], stops[i]) && seps[i] in stops[i]
  }

  /** Cutting what was joined gives back the pieces. */
  lemma {:induction false} CutAllOfJoin(texts: seq<string>, seps: seq<char>, stops: seq<set<char>>)
    requires Cuttable(texts, seps, stops)
    ensures CutAll(Join(texts, seps), stops) == Some(Pieces(texts, seps))
    decreases |stops|
  {
    if stops != [] {
      assert Cuttable(texts[1..], seps[1..], stops[1..]) by {
        forall i | 0 <= i < |stops| - 1
          ensures NoneIn(texts[1..][i], stops[1..][i]) && seps[1..][i] in stops[1..][i]
        {
          assert texts[1..][i] == texts[i + 1] && seps[1..][i] == seps[i + 1] && stops[1..][i] == stops[i + 1];
        }
      }
      var rest := Join(texts[1..], seps[1..]);
      assert Join(texts, seps) == texts[0] + [seps[0]] + rest;
      assert NoneIn(texts[0], stops[0]) && seps[0] in stops[0];
      SplitAtFirstOf(texts[0], seps[0], rest, stops[0]);
      CutAllOfJoin(texts[1..], seps[1..], stops[1..]);
      assert [texts[0]] + texts[1..] == texts && [seps[0]] + seps[1..] == seps;
    } else {
      assert texts == [texts[0]] && seps == [];
    }
  }

  /** A cut joins back to the string, and its pieces are as the stop sets require. */
  lemma {:induction false} CutAllJoins(s: string, stops: seq<set<char>>)
    requires CutAll(s, stops).Some?
    ensures Cuttable(CutAll(s, stops).value.texts, CutAll(s, stops).value.seps, stops)
    ensures Join(CutAll(s, stops).value.texts, CutAll(s, stops).value.seps) == s
    decreases |stops|
  {
    if stops != [] {
      var sp := SplitAtFirst(s, stops[0]).value;
      SplitAtFirstCuts(s, stops[0]);
      CutAllJoins(sp.after, stops[1..]);
      var q := CutAll(sp.after, stops[1..]).value;
      var p := CutAll(s, stops).value;
      assert p.texts[1..] == q.texts && p.seps[1..] == q.seps;
      forall i | 0 <= i < |stops|
        ensures NoneIn(p.texts[i], stops[i]) && p.seps[i] in stops[i]
      {
        if i > 0 {
          assert p.texts[i] == q.texts[i - 1] && p.seps[i] == q.seps[i - 1] && stops[i] == stops[1..][i - 1];
        }
      }
    }
  }

  /** The pieces of a six-field match, as fields. */
  function Assemble(p: Pieces): Fields
    requires |p.texts| == 6 && |p.seps| == 5
  {
    Fields(p.texts[0], p.texts[1], p.texts[2], p.seps[2], p.texts[3], p.texts[4], p.texts[5])
  }

  function Disassemble(f: Fields): Pieces {
    Pieces([f.year, f.month, f.day, f.hour, f.minute, f.second], ['-', '-', f.sep, ':', ':'])
  }

  /** Six texts and five separators joined, written out. */
  lemma JoinSix(p: Pieces)
    requires |p.texts| == 6 && |p.seps| == 5
    ensures Join(p.texts, p.seps) == p.texts[0] + [p.seps[0]] + (p.texts[1] + [p.seps[1]] + (p.texts[2] + [p.seps[2]]
      + (p.texts[3] + [p.seps[3]] + (p.texts[4] + [p.seps[4]] + p.texts[5]))))
  {
    var ts, ss := p.texts, p.seps;
    assert Join(ts[5..], ss[5..]) == ts[5];
    assert Join(ts[4..], ss[4..]) == ts[4] + [ss[4]] + ts[5] by {
      assert ts[4..][1..] == ts[5..] && ss[4..][1..] == ss[5..];
    }
    assert Join(ts[3..], ss[3..]) == ts[3] + [ss[3]] + Join(ts[4..], ss[4..]) by {
      assert ts[3..][1..] == ts[4..] && ss[3..][1..] == ss[4..];
    }
    assert Join(ts[2..], ss[2..]) == ts[2] + [ss[2]] + Join(ts[3..], ss[3..]) by {
      assert ts[2..][1..] == ts[3..] && ss[2..][1..] == ss[3..];
    }
    assert Join(ts[1..], ss[1..]) == ts[1] + [ss[1]] + Join(ts[2..], ss[2..]) by {
      assert ts[1..][1..] == ts[2..] && ss[1..][1..] == ss[2..];
    }
  }

  // ---------------------------------------------------------------- strptime

  /** `datetime.strptime(s, "%Y-%m-%dT%H:%M:%S")`; `None` where it raises `ValueError`. */
  function Strptime(s: string): (r: Option<CivilTime>)
    ensures r.Some? ==> Valid(r.value)
  {
    match CutAll(s, Separators)
    case None => None
    case Some(p) =>
      var f := Assemble(p);
      if WellFormed(f) && Valid(Meaning(f)) then Some(Meaning(f)) else None
  }

  function ParseTimestamp(s: string): Option<int> {
    match Strptime(StripZ(s))
    case None => None
    case Some(t) => Some(ToSeconds(t))
  }

  /** A rendered string parses exactly when its fields are words of their languages and form a valid date. */
  lemma StrptimeOfRender(f: Fields)
    requires Separable(f)
    ensures Strptime(Render(f)) == if WellFormed(f) && Valid(Meaning(f)) then Some(Meaning(f)) else None
  {
    var p := Disassemble(f);
    JoinSix(p);
    assert Cuttable(p.texts, p.seps, Separators) by {
      forall i | 0 <= i < 5
        ensures NoneIn(p.texts[i], Separators[i]) && p.seps[i] in Separators[i]
      {
        if i == 0 {} else if i == 1 {} else if i == 2 {} else if i == 3 {} else {}
      }
    }
    CutAllOfJoin(p.texts, p.seps, Separators);
    assert Assemble(p) == f;
  }

  lemma StrptimeOnlyRendered(s: string)
    requires Strptime(s).Some?
    ensures exists f :: WellFormed(f) && Render(f) == s && Strptime(s) == Some(Meaning(f))
  {
    var p := CutAll(s, Separators).value;
    CutAllJoins(s, Separators);
    var f := Assemble(p);
    JoinSix(p);
    assert p.seps[0] in Separators[0] && p.seps[1] in Separators[1];
    assert p.seps[3] in Separators[3] && p.seps[4] in Separators[4];
    assert Render(f) == s;
  }

  /** A string whose `Z`-free rest renders well-formed fields of a valid date parses to that date's instant. */
  lemma ParseTimestampOfRender(s: string, f: Fields)
    requires WellFormed(f) && Render(f) == StripZ(s) && Valid(Meaning(f))
    ensures ParseTimestamp(s) == Some(ToSeconds(Meaning(f)))
  {
    StrptimeOfRender(f);
  }

  /** Both directions: `s` parses to instant `n` iff, with its `Z`s removed, it renders well-formed fields of a valid date at `n`. */
  lemma ParseTimestampExactly(s: string, n: int)
    ensures ParseTimestamp(s) == Some(n) <==>
      exists f :: WellFormed(f) && Render(f) == StripZ(s) && Valid(Meaning(f)) && n == ToSeconds(Meaning(f))
  {
    var u := StripZ(s);
    if ParseTimestamp(s) == Some(n) {
      StrptimeOnlyRendered(u);
      var f :| WellFormed(f) && Render(f) == u && Strptime(u) == Some(Meaning(f));
      assert Valid(Meaning(f)) && n == ToSeconds(Meaning(f));
    }
    if exists f :: WellFormed(f) && Render(f) == u && Valid(Meaning(f)) && n == ToSeconds(Meaning(f)) {
      var f :| WellFormed(f) && Render(f) == u && Valid(Meaning(f)) && n == ToSeconds(Meaning(f));
      ParseTimestampOfRender(s, f);
    }
  }

  // ---------------------------------------------------------------- the canonical form

  function Digit(n: int): char
    requires 0 <= n <= 9
  {
    ('0' as int + n) as char
  }

  function Pad2(n: int): string
    requires 0 <= n <= 99
  {
    [Digit(n / 10), Digit(n % 10)]
  }

  function Pad4(n: int): string
    requires 0 <= n <= 9999
  {
    Pad2(n / 100) + Pad2(n % 100)
  }

  function CanonicalFields(t: CivilTime): Fields
    requires Valid(t)
  {
    Fields(Pad4(t.year), Pad2(t.month), Pad2(t.day), 'T', Pad2(t.hour), Pad2(t.minute), Pad2(t.second))
  }

  /** `YYYY-MM-DDTHH:MM:SSZ`, the form in which the API server writes a deletion timestamp. */
  function Format(t: CivilTime): string
    requires Valid(t)
  {
    Render(CanonicalFields(t)) + "Z"
  }

  lemma DigitValue(k: int)
    requires 0 <= k <= 9
    ensures IsDigit(Digit(k)) && CharValue(Digit(k)) == k
  {
  }

  lemma Pad2Value(n: int)
    requires 0 <= n <= 99
    ensures TokenValue(Pad2(n)) == n
  {
    var p := Pad2(n);
    DigitValue(n / 10);
    DigitValue(n % 10);
    assert p[..1] == [Digit(n / 10)];
    assert [Digit(n / 10)][..0] == [];
    assert TokenValue(p[..1]) == n / 10;
  }

  lemma TokenValueAppend2(p: string, x: char, y: char)
    ensures TokenValue(p + [x, y]) == TokenValue(p) * 100 + TokenValue([x, y])
  {
    assert (p + [x, y])[..|p| + 1] == p + [x];
    assert (p + [x])[..|p|] == p;
    assert TokenValue(p + [x, y]) == TokenValue(p + [x]) * 10 + CharValue(y);
    assert TokenValue(p + [x]) == TokenValue(p) * 10 + CharValue(x);
    assert [x, y][..1] == [x];
    assert [x][..0] == [];
    assert TokenValue([x]) == CharValue(x);
    assert TokenValue([x, y]) == CharValue(x) * 10 + CharValue(y);
  }

  lemma Pad4Value(n: int)
    requires 0 <= n <= 9999
    ensures TokenValue(Pad4(n)) == n
  {
    var hi, lo := Pad2(n / 100), Pad2(n % 100);
    Pad2Value(n / 100);
    Pad2Value(n % 100);
    TokenValueAppend2(hi, lo[0], lo[1]);
    assert [lo[0], lo[1]] == lo;
  }

  lemma Pad2Tokens(n: int)
    requires 0 <= n <= 99
    ensures 1 <= n <= 12 ==> MonthToken(Pad2(n))
    ensures 1 <= n <= 31 ==> DayToken(Pad2(n))
    ensures n <= 23 ==> HourToken(Pad2(n))
    ensures n <= 59 ==> MinuteToken(Pad2(n)) && SecondToken(Pad2(n))
    ensures NoneIn(Pad2(n), {'-', 'T', 't', ':', 'Z'})
  {
    DigitValue(n / 10);
    DigitValue(n % 10);
  }

  lemma Pad4Tokens(n: int)
    requires 0 <= n <= 9999
    ensures YearToken(Pad4(n)) && NoneIn(Pad4(n), {'-', 'Z'})
  {
    DigitValue(n / 100 / 10);
    DigitValue(n / 100 % 10);
    DigitValue(n % 100 / 10);
    DigitValue(n % 100 % 10);
  }

  lemma CanonicalFieldsMean(t: CivilTime)
    requires Valid(t)
    ensures WellFormed(CanonicalFields(t)) && Separable(CanonicalFields(t))
    ensures Meaning(CanonicalFields(t)) == t
    ensures 'Z' !in Render(CanonicalFields(t))
  {
    Pad4Value(t.year);
    Pad2Value(t.month);
    Pad2Value(t.day);
    Pad2Value(t.hour);
    Pad2Value(t.minute);
    Pad2Value(t.second);
    Pad4Tokens(t.year);
    Pad2Tokens(t.month);
    Pad2Tokens(t.day);
    Pad2Tokens(t.hour);
    Pad2Tokens(t.minute);
    Pad2Tokens(t.second);
    var f := CanonicalFields(t);
    assert NoneIn(Render(f), {'Z'}) by {
      assert Render(f) == f.year + ['-'] + f.month + ['-'] + f.day + ['T'] + f.hour + [':'] + f.minute + [':'] + f.second;
    }
  }

  /** A text free of `Z`, closed by one `Z`: the removal gives back the text. */
  lemma {:induction false} StripZClosing(r: string, suffix: string)
    requires 'Z' !in r
    ensures StripZ(r + "Z" + suffix) == r + StripZ(suffix)
  {
    var s := r + "Z" + suffix;
    if r == [] {
      assert s[0] == 'Z' && s[1..] == suffix;
    } else {
      assert s[0] == r[0] && s[1..] == r[1..] + "Z" + suffix;
      StripZClosing(r[1..], suffix);
      assert r == [r[0]] + r[1..];
    }
  }

  lemma StripZFormat(t: CivilTime, suffix: string)
    requires Valid(t)
    ensures StripZ(Format(t) + suffix) == Render(CanonicalFields(t)) + StripZ(suffix)
  {
    CanonicalFieldsMean(t);
    StripZClosing(Render(CanonicalFields(t)), suffix);
  }

  /** Round trip: formatting a valid instant and parsing it gives back the same date and instant. */
  lemma ParseFormatRoundTrip(t: CivilTime)
    requires Valid(t)
    ensures Strptime(StripZ(Format(t))) == Some(t)
    ensures ParseTimestamp(Format(t)) == Some(ToSeconds(t))
  {
    var f := CanonicalFields(t);
    CanonicalFieldsMean(t);
    StripZFormat(t, []);
    assert Format(t) + [] == Format(t);
    assert Render(f) + [] == Render(f);
    StrptimeOfRender(f);
  }

  /**
   * Anything after the seconds that survives the removal of `Z` is unconverted
   * text, and the parse fails.
   */
  lemma ParseRejectsTrailingText(s: string, t: CivilTime, x: string)
    requires Valid(t) && x != [] && StripZ(s) == Render(CanonicalFields(t)) + x
    ensures ParseTimestamp(s) == None
  {
    var f := CanonicalFields(t);
    CanonicalFieldsMean(t);
    var g := f.(second := f.second + x);
    RenderExtendsSecond(f, x);
    assert |g.second| >= 3;
    StrptimeOfRender(g);
  }

  /**
   * Fractional seconds or a numeric offset after the seconds, with or without a
   * closing `Z` (`…:05.123Z`, `…:05+00:00`), or any text after the closing `Z`
   * that is not all `Z`: the parse fails.
   */
  lemma ParseRejectsFractionAndOffset(t: CivilTime, x: string, suffix: string)
    requires Valid(t) && x != [] && 'Z' !in x
    ensures ParseTimestamp(Render(CanonicalFields(t)) + x) == None
    ensures ParseTimestamp(Render(CanonicalFields(t)) + x + "Z") == None
    ensures StripZ(suffix) != [] ==> ParseTimestamp(Format(t) + suffix) == None
  {
    var r := Render(CanonicalFields(t));
    CanonicalFieldsMean(t);
    StripZKeeps(x);
    assert 'Z' !in r + x;
    StripZUnchanged(r + x);
    ParseRejectsTrailingText(r + x, t, x);
    StripZClosing(r + x, []);
    assert r + x + "Z" + [] == r + x + "Z";
    assert StripZ([]) == [];
    ParseRejectsTrailingText(r + x + "Z", t, x);
    if StripZ(suffix) != [] {
      StripZFormat(t, suffix);
      ParseRejectsTrailingText(Format(t) + suffix, t, StripZ(suffix));
    }
  }

  lemma RenderExtendsSecond(f: Fields, x: string)
    ensures Render(f) + x == Render(f.(second := f.second + x))
  {
  }

  /** The value of texts of one and two letters. */
  lemma TokenValueShort(x: char, y: char)
    ensures TokenValue([x]) == CharValue(x)
    ensures TokenValue([x, y]) == CharValue(x) * 10 + CharValue(y)
  {
    assert [x][..0] == [];
    assert [x, y][..1] == [x];
  }

  /** `2024` is worth 2024. */
  lemma YearValueExample()
    ensures TokenValue("2024") == 2024
  {
    TokenValueShort('2', '0');
    TokenValueShort('2', '4');
    TokenValueAppend2("20", '2', '4');
    assert "20" + ['2', '4'] == "2024";
  }

  /** The pattern is more lenient than the fixed-width form: single-digit fields and a lower-case `t` are accepted. */
  lemma LenientDigitsAndSeparator(s: string)
    requires s == "2024-1-5t3:4:5"
    ensures Strptime(s) == Some(CivilTime(2024, 1, 5, 3, 4, 5))
  {
    var f := Fields("2024", "1", "5", 't', "3", "4", "5");
    assert Render(f) == s;
    YearValueExample();
    TokenValueShort('1', '0');
    TokenValueShort('5', '0');
    TokenValueShort('3', '0');
    TokenValueShort('4', '0');
    StrptimeOfRender(f);
  }

  /** A space-padded day is accepted too. */
  lemma LenientSpacePaddedDay(s: string)
    requires s == "2024-1- 5T3:4:5"
    ensures Strptime(s) == Some(CivilTime(2024, 1, 5, 3, 4, 5))
  {
    var f := Fields("2024", "1", " 5", 'T', "3", "4", "5");
    assert Render(f) == s;
    YearValueExample();
    TokenValueShort('1', '0');
    TokenValueShort(' ', '5');
    TokenValueShort('3', '0');
    TokenValueShort('4', '0');
    TokenValueShort('5', '0');
    assert Meaning(f) == CivilTime(2024, 1, 5, 3, 4, 5);
    StrptimeOfRender(f);
  }
}
