/**
 * The key-position string parser behind the `-k` option: a cursor over the
 * argument text plus a pending range, returning one position per call.
 */
module PositionStrings {
  import KeyPositions

  /** The text and the constants a parser is created with. */
  datatype ParserConfig = ParserConfig(
    str: string,
    low: int,       // smallest value accepted, inclusive
    high: int,      // greatest value accepted, inclusive
    endWord: int,   // returned for '$'
    error: int,     // returned for a syntax or range error
    end: int)       // returned once the text is exhausted

  /** The parser's moving parts: the cursor and the pending range. */
  datatype ParserState = ParserState(cursor: nat, inRange: bool, rangeUpperBound: int, rangeCurrValue: int)

  /** How a run of calls ends: at the end marker or at the error value. */
  datatype Outcome = End | Error

  /** The values returned before the run stopped, and how it stopped. */
  datatype Yield = Yield(values: seq<int>, outcome: Outcome)

  function Cons(v: int, y: Yield): Yield {
    Yield([v] + y.values, y.outcome)
  }

  function Concat(vs: seq<int>, y: Yield): Yield {
    Yield(vs + y.values, y.outcome)
  }

  predicate IsDigit(c: char) {
    '0' <= c <= '9'
  }

  /** Where the run of digits starting at `i` ends. */
  ghost function DigitsEnd(s: string, i: nat): (j: nat)
    requires i <= |s|
    ensures i <= j <= |s|
    ensures forall k :: i <= k < j ==> IsDigit(s[k])
    ensures j < |s| ==> !IsDigit(s[j])
    decreases |s| - i
  {
    if i < |s| && IsDigit(s[i]) then DigitsEnd(s, i + 1) else i
  }

  /** A state the parser can be in between calls: the cursor inside the text, a pending range not yet finished. */
  ghost predicate Valid(cfg: ParserConfig, st: ParserState) {
    st.cursor <= |cfg.str| && (st.inRange ==> st.rangeCurrValue < st.rangeUpperBound)
  }

  /** What is left of a pending range. */
  ghost function RangeLeft(st: ParserState): int {
    if st.inRange then st.rangeUpperBound - st.rangeCurrValue else 0
  }

  // ---------------------------------------------------------------------
  // One call of `nextPosition`
  // ---------------------------------------------------------------------

  /**
   * One call: inside a range, the next value of the range (leaving the
   * range once its upper bound is returned); otherwise the next item of
   * the text.
   */
  ghost function Step(cfg: ParserConfig, st: ParserState): (int, ParserState)
    requires st.cursor <= |cfg.str|
  {
    if st.inRange then
      var c := st.rangeCurrValue + 1;
      (c, st.(rangeCurrValue := c, inRange := !(c >= st.rangeUpperBound)))
    else Scan(cfg, st)
  }

  /**
   * Reading the text: commas are skipped, '$' gives the end-of-word
   * marker, a digit starts a number, anything else is an error, and the
   * end of the text gives the end marker.
   */
  ghost function Scan(cfg: ParserConfig, st: ParserState): (int, ParserState)
    requires st.cursor <= |cfg.str|
    decreases |cfg.str| - st.cursor
  {
    var i := st.cursor;
    if i == |cfg.str| then (cfg.end, st)
    else if cfg.str[i] == ',' then Scan(cfg, st.(cursor := i + 1))
    else if cfg.str[i] == '$' then (cfg.endWord, st.(cursor := i + 1))
    else if IsDigit(cfg.str[i]) then Number(cfg, st)
    else (cfg.error, st)
  }

  /**
   * A number `a`, or a range `a-b`.  A range needs `a < b <= high`; it
   * is entered before that check, so an error leaves it marked pending.
   * The single number, or the start of the range, must lie in
   * [low, high].
   */
  ghost function Number(cfg: ParserConfig, st: ParserState): (int, ParserState)
    requires st.cursor < |cfg.str|
  {
    var s, i := cfg.str, st.cursor;
    var j := DigitsEnd(s, i);
    var a := KeyPositions.DigitsValue(s[i..j]);
    if j < |s| && s[j] == '-' then
      var k := DigitsEnd(s, j + 1);
      var b := KeyPositions.DigitsValue(s[j + 1..k]);
      var ranged := st.(cursor := k, inRange := true, rangeUpperBound := b);
      if !(b > a && b <= cfg.high) then (cfg.error, ranged)
      else if !(a >= cfg.low && a <= cfg.high) then (cfg.error, ranged.(rangeCurrValue := a))
      else (a, ranged.(rangeCurrValue := a))
    else
      var after := st.(cursor := j);
      if !(a >= cfg.low && a <= cfg.high) then (cfg.error, after) else (a, after)
  }

  /** A call that returns neither marker leaves a valid state and makes progress. */
  lemma StepDecreases(cfg: ParserConfig, st: ParserState)
    requires Valid(cfg, st)
    ensures Step(cfg, st).1.cursor <= |cfg.str|
    ensures Step(cfg, st).0 != cfg.end && Step(cfg, st).0 != cfg.error ==>
      Valid(cfg, Step(cfg, st).1) &&
      (Step(cfg, st).1.cursor > st.cursor ||
       (Step(cfg, st).1.cursor == st.cursor && 0 <= RangeLeft(Step(cfg, st).1) < RangeLeft(st)))
  {
    if !st.inRange {
      ScanProgress(cfg, st);
    }
  }

  lemma {:induction false} ScanProgress(cfg: ParserConfig, st: ParserState)
    requires st.cursor <= |cfg.str| && !st.inRange
    ensures Scan(cfg, st).1.cursor <= |cfg.str|
    ensures Scan(cfg, st).0 != cfg.end && Scan(cfg, st).0 != cfg.error ==>
      Valid(cfg, Scan(cfg, st).1) && Scan(cfg, st).1.cursor > st.cursor
    decreases |cfg.str| - st.cursor
  {
    var i := st.cursor;
    if i < |cfg.str| && cfg.str[i] == ',' {
      ScanProgress(cfg, st.(cursor := i + 1));
    }
  }

  // ---------------------------------------------------------------------
  // Calling until a marker comes back
  // ---------------------------------------------------------------------

  /** The values a caller receives by calling until the end marker or the error value. */
  ghost function Drain(cfg: ParserConfig, st: ParserState): Yield
    requires Valid(cfg, st)
    decreases |cfg.str| - st.cursor, RangeLeft(st)
  {
    var (v, next) := Step(cfg, st);
    StepDecreases(cfg, st);
    if v == cfg.end then Yield([], End)
    else if v == cfg.error then Yield([], Error)
    else Cons(v, Drain(cfg, next))
  }

  /** What the caller still receives once `v` has come back from a call that left the parser in `next`. */
  ghost function After(cfg: ParserConfig, v: int, next: ParserState): Yield
    requires next.cursor <= |cfg.str|
    requires v != cfg.end && v != cfg.error ==> Valid(cfg, next)
  {
    if v == cfg.end then Yield([], End)
    else if v == cfg.error then Yield([], Error)
    else Cons(v, Drain(cfg, next))
  }

  // ---------------------------------------------------------------------
  // What a position string denotes
  // ---------------------------------------------------------------------

  /**
   * The values the text from `i` on stands for: each '$' the end-of-word
   * marker, each number in [low, high] itself, each range `a-b` with
   * low <= a < b <= high the values a, a+1, ..., b; commas separate. Any
   * other character, an out-of-bounds number or a malformed range stops
   * the list with an error.
   */
  ghost function Denoted(cfg: ParserConfig, i: nat): Yield
    requires i <= |cfg.str|
    decreases |cfg.str| - i
  {
    var s := cfg.str;
    if i == |s| then Yield([], End)
    else if s[i] == ',' then Denoted(cfg, i + 1)
    else if s[i] == '$' then Cons(cfg.endWord, Denoted(cfg, i + 1))
    else if IsDigit(s[i]) then
      var j := DigitsEnd(s, i);
      var a := KeyPositions.DigitsValue(s[i..j]);
      if j < |s| && s[j] == '-' then
        var k := DigitsEnd(s, j + 1);
        var b := KeyPositions.DigitsValue(s[j + 1..k]);
        if cfg.low <= a < b <= cfg.high then Concat(KeyPositions.Span((a, b)), Denoted(cfg, k))
        else Yield([], Error)
      else if cfg.low <= a <= cfg.high then Cons(a, Denoted(cfg, j))
      else Yield([], Error)
    else Yield([], Error)
  }

  /** The markers differ from each other and from every value in bounds. */
  ghost predicate MarkersApart(cfg: ParserConfig) {
    cfg.end != cfg.error && cfg.endWord != cfg.end && cfg.endWord != cfg.error &&
    cfg.end < cfg.low && cfg.error < cfg.low
  }

  /** Calling until a marker: the first call, then the rest. */
  lemma DrainStep(cfg: ParserConfig, st: ParserState)
    requires Valid(cfg, st)
    ensures Step(cfg, st).1.cursor <= |cfg.str|
    ensures Step(cfg, st).0 != cfg.end && Step(cfg, st).0 != cfg.error ==> Valid(cfg, Step(cfg, st).1)
    ensures Drain(cfg, st) == After(cfg, Step(cfg, st).0, Step(cfg, st).1)
  {
    StepDecreases(cfg, st);
  }

  /** Between items, calling until a marker yields exactly what the rest of the text denotes. */
  lemma {:induction false} DrainIdle(cfg: ParserConfig, st: ParserState)
    requires MarkersApart(cfg) && st.cursor <= |cfg.str| && !st.inRange
    ensures Drain(cfg, st) == Denoted(cfg, st.cursor)
    decreases |cfg.str| - st.cursor, 0, 2
  {
    var s, i := cfg.str, st.cursor;
    DrainStep(cfg, st);
    if i == |s| {
      assert Step(cfg, st) == (cfg.end, st);
    } else if s[i] == ',' {
      var st' := st.(cursor := i + 1);
      assert Step(cfg, st) == Step(cfg, st');
      DrainStep(cfg, st');
      DrainIdle(cfg, st');
      assert Denoted(cfg, i) == Denoted(cfg, i + 1);
    } else if s[i] == '$' {
      var st' := st.(cursor := i + 1);
      assert Step(cfg, st) == (cfg.endWord, st');
      DrainIdle(cfg, st');
      assert Denoted(cfg, i) == Cons(cfg.endWord, Denoted(cfg, i + 1));
    } else if IsDigit(s[i]) {
      assert Step(cfg, st) == Number(cfg, st);
      DrainNumber(cfg, st);
    } else {
      assert Step(cfg, st) == (cfg.error, st);
    }
  }

  /** A number or a range at the cursor. */
  lemma {:induction false} DrainNumber(cfg: ParserConfig, st: ParserState)
    requires MarkersApart(cfg) && st.cursor < |cfg.str| && !st.inRange && IsDigit(cfg.str[st.cursor])
    ensures After(cfg, Number(cfg, st).0, Number(cfg, st).1) == Denoted(cfg, st.cursor)
    decreases |cfg.str| - st.cursor, 0, 1
  {
    var j := DigitsEnd(cfg.str, st.cursor);
    if j < |cfg.str| && cfg.str[j] == '-' {
      DrainNumberRange(cfg, st);
    } else {
      DrainNumberSingle(cfg, st);
    }
  }

  /** A range `a-b` at the cursor. */
  lemma {:induction false} DrainNumberRange(cfg: ParserConfig, st: ParserState)
    requires MarkersApart(cfg) && st.cursor < |cfg.str| && !st.inRange && IsDigit(cfg.str[st.cursor])
    requires DigitsEnd(cfg.str, st.cursor) < |cfg.str| && cfg.str[DigitsEnd(cfg.str, st.cursor)] == '-'
    ensures After(cfg, Number(cfg, st).0, Number(cfg, st).1) == Denoted(cfg, st.cursor)
    decreases |cfg.str| - st.cursor, 0, 0
  {
    var s, i := cfg.str, st.cursor;
    var j := DigitsEnd(s, i);
    var a := KeyPositions.DigitsValue(s[i..j]);
    var k := DigitsEnd(s, j + 1);
    var b := KeyPositions.DigitsValue(s[j + 1..k]);
    if cfg.low <= a < b <= cfg.high {
      var next := st.(cursor := k, inRange := true, rangeUpperBound := b, rangeCurrValue := a);
      assert Number(cfg, st) == (a, next);
      RangeAfter(cfg, next);
      assert Denoted(cfg, i) == Concat(KeyPositions.Span((a, b)), Denoted(cfg, k));
    } else {
      assert Number(cfg, st).0 == cfg.error;
      assert Denoted(cfg, i) == Yield([], Error);
    }
  }

  /** Once a range has been entered and its start returned, the caller receives the whole range and then what follows it. */
  lemma {:induction false} RangeAfter(cfg: ParserConfig, next: ParserState)
    requires MarkersApart(cfg) && next.cursor <= |cfg.str| && next.inRange
    requires cfg.low <= next.rangeCurrValue < next.rangeUpperBound
    ensures After(cfg, next.rangeCurrValue, next) ==
      Concat(KeyPositions.Span((next.rangeCurrValue, next.rangeUpperBound)), Denoted(cfg, next.cursor))
    decreases |cfg.str| - next.cursor, RangeLeft(next), 1
  {
    var a := next.rangeCurrValue;
    DrainRange(cfg, next);
    assert After(cfg, a, next) == Cons(a, Drain(cfg, next));
    ConsSpan(a, next.rangeUpperBound, Denoted(cfg, next.cursor));
  }

  /** Emitting the start of a range, then the rest of it, emits the whole range. */
  lemma ConsSpan(a: int, b: int, d: Yield)
    requires a < b
    ensures Cons(a, Concat(KeyPositions.Span((a + 1, b)), d)) == Concat(KeyPositions.Span((a, b)), d)
  {
    var rest := KeyPositions.Span((a + 1, b));
    assert KeyPositions.Span((a, b)) == [a] + rest;
    assert [a] + (rest + d.values) == ([a] + rest) + d.values;
  }

  /** A single number at the cursor. */
  lemma {:induction false} DrainNumberSingle(cfg: ParserConfig, st: ParserState)
    requires MarkersApart(cfg) && st.cursor < |cfg.str| && !st.inRange && IsDigit(cfg.str[st.cursor])
    requires !(DigitsEnd(cfg.str, st.cursor) < |cfg.str| && cfg.str[DigitsEnd(cfg.str, st.cursor)] == '-')
    ensures After(cfg, Number(cfg, st).0, Number(cfg, st).1) == Denoted(cfg, st.cursor)
    decreases |cfg.str| - st.cursor, 0, 0
  {
    var s, i := cfg.str, st.cursor;
    var j := DigitsEnd(s, i);
    var a := KeyPositions.DigitsValue(s[i..j]);
    if cfg.low <= a <= cfg.high {
      var next := st.(cursor := j);
      assert Number(cfg, st) == (a, next);
      DrainIdle(cfg, next);
      assert After(cfg, a, next) == Cons(a, Drain(cfg, next));
      assert Denoted(cfg, i) == Cons(a, Denoted(cfg, j));
    } else {
      assert Number(cfg, st).0 == cfg.error;
      assert Denoted(cfg, i) == Yield([], Error);
    }
  }

  /** Inside a range, the caller receives the rest of the range and then what the text denotes. */
  lemma {:induction false} DrainRange(cfg: ParserConfig, st: ParserState)
    requires MarkersApart(cfg) && st.cursor <= |cfg.str| && st.inRange
    requires cfg.low <= st.rangeCurrValue < st.rangeUpperBound
    ensures Drain(cfg, st) == Concat(KeyPositions.Span((st.rangeCurrValue + 1, st.rangeUpperBound)), Denoted(cfg, st.cursor))
    decreases |cfg.str| - st.cursor, RangeLeft(st), 0
  {
    var c := st.rangeCurrValue + 1;
    var next := st.(rangeCurrValue := c, inRange := !(c >= st.rangeUpperBound));
    assert Step(cfg, st) == (c, next);
    DrainStep(cfg, st);
    if c < st.rangeUpperBound {
      DrainRange(cfg, next);
      assert KeyPositions.Span((c, st.rangeUpperBound)) == [c] + KeyPositions.Span((c + 1, st.rangeUpperBound));
    } else {
      DrainIdle(cfg, next);
      assert KeyPositions.Span((c, st.rangeUpperBound)) == [c];
    }
  }

  /** Every value a position string denotes is the end-of-word marker or lies in [low, high]. */
  lemma {:induction false} DenotedBounds(cfg: ParserConfig, i: nat)
    requires i <= |cfg.str|
    ensures forall v :: v in Denoted(cfg, i).values ==> v == cfg.endWord || cfg.low <= v <= cfg.high
    decreases |cfg.str| - i
  {
    var s := cfg.str;
    if i < |s| {
      if s[i] == ',' || s[i] == '$' {
        DenotedBounds(cfg, i + 1);
      } else if IsDigit(s[i]) {
        var j := DigitsEnd(s, i);
        var a := KeyPositions.DigitsValue(s[i..j]);
        if j < |s| && s[j] == '-' {
          var k := DigitsEnd(s, j + 1);
          var b := KeyPositions.DigitsValue(s[j + 1..k]);
          if cfg.low <= a < b <= cfg.high {
            DenotedBounds(cfg, k);
            SpanBounds(a, b);
          }
        } else if cfg.low <= a <= cfg.high {
          DenotedBounds(cfg, j);
        }
      }
    }
  }

  lemma {:induction false} SpanBounds(a: int, b: int)
    ensures forall v :: v in KeyPositions.Span((a, b)) ==> a <= v <= b
    decreases b - a
  {
    if a <= b {
      SpanBounds(a + 1, b);
    }
  }

  // ---------------------------------------------------------------------
  // The parser object
  // ---------------------------------------------------------------------

  class PositionStringParser {
    /** The text, and the bounds and markers it was created with. */
    const str: string
    const lowBound: int
    const highBound: int
    const endWordMarker: int
    const errorValue: int
    const endMarker: int
    /** The cursor into `str`. */
    var cursor: nat
    /** Whether a range is being produced, its upper bound, and the last value returned from it. */
    var inRange: bool
    var rangeUpperBound: int
    var rangeCurrValue: int

    ghost function Config(): ParserConfig {
      ParserConfig(str, lowBound, highBound, endWordMarker, errorValue, endMarker)
    }

    ghost function State(): ParserState
      reads this
    {
      ParserState(cursor, inRange, rangeUpperBound, rangeCurrValue)
    }

    /** Starts at the beginning of `s`, outside any range. */
    constructor (s: string, low: int, high: int, endWord: int, error: int, end: int)
      ensures Config() == ParserConfig(s, low, high, endWord, error, end)
      ensures State() == ParserState(0, false, 0, 0)
    {
      str, lowBound, highBound := s, low, high;
      endWordMarker, errorValue, endMarker := endWord, error, end;
      cursor := 0;
      inRange := false;
      rangeUpperBound, rangeCurrValue := 0, 0;
    }

    /** Returns the next key position; see `Step`. */
    method NextPosition() returns (r: int)
      requires cursor <= |str|
      modifies this
      ensures (r, State()) == Step(Config(), old(State()))
    {
      if inRange {
        rangeCurrValue := rangeCurrValue + 1;
        if rangeCurrValue >= rangeUpperBound {
          inRange := false;
        }
        return rangeCurrValue;
      }
      ghost var st := State();
      while cursor < |str|
        invariant cursor <= |str| && !inRange
        invariant State() == st.(cursor := cursor)
        invariant Scan(Config(), State()) == Scan(Config(), st)
        decreases |str| - cursor
      {
        var c := str[cursor];
        if c == ',' {
          cursor := cursor + 1;
        } else if c == '$' {
          cursor := cursor + 1;
          return endWordMarker;
        } else if '0' <= c <= '9' {
          r := ReadNumber();
          return;
        } else {
          return errorValue;
        }
      }
      return endMarker;
    }

    /** Reads a number, or a range `a-b`, at the cursor; see `Number`. */
    method ReadNumber() returns (r: int)
      requires cursor < |str| && IsDigit(str[cursor])
      modifies this
      ensures (r, State()) == Number(Config(), old(State()))
    {
      var currValue := ReadDigits();
      if cursor < |str| && str[cursor] == '-' {
        cursor := cursor + 1;
        inRange := true;
        rangeUpperBound := ReadDigits();
        if !(rangeUpperBound > currValue && rangeUpperBound <= highBound) {
          return errorValue;
        }
        rangeCurrValue := currValue;
      }
      if !(currValue >= lowBound && currValue <= highBound) {
        return errorValue;
      }
      return currValue;
    }

    /** Accumulates the digits at the cursor, most significant first, moving past them. */
    method ReadDigits() returns (v: int)
      requires cursor <= |str|
      modifies this
      ensures cursor == DigitsEnd(str, old(cursor))
      ensures v == KeyPositions.DigitsValue(str[old(cursor)..cursor])
      ensures inRange == old(inRange) && rangeUpperBound == old(rangeUpperBound)
      ensures rangeCurrValue == old(rangeCurrValue)
    {
      ghost var start := cursor;
      v := 0;
      while cursor < |str| && '0' <= str[cursor] <= '9'
        invariant start <= cursor <= |str|
        invariant DigitsEnd(str, cursor) == DigitsEnd(str, start)
        invariant v == KeyPositions.DigitsValue(str[start..cursor])
        invariant inRange == old(inRange) && rangeUpperBound == old(rangeUpperBound)
        invariant rangeCurrValue == old(rangeCurrValue)
        decreases |str| - cursor
      {
        assert str[start..cursor + 1][..cursor - start] == str[start..cursor];
        v := v * 10 + (str[cursor] as int - '0' as int);
        cursor := cursor + 1;
      }
    }
  }
}

/**
 * The option record: the boolean options packed into one word, the output
 * language, the jump, the number of switches, the names used in the
 * generated code and the key positions, with the handlers of `-j`, `-k`
 * and `-L` and the setters that replace a value only while it is still
 * the default.
 */
module CommandOptions {
  import opened Wrappers
  import KeyPositions
  import PositionStrings

  /** The values of the source's 32-bit signed `int` fields. */
  type Int32 = x: int | -0x8000_0000 <= x < 0x8000_0000

  // ---------------------------------------------------------------------
  // The option word
  // ---------------------------------------------------------------------

  /** The boolean options, from bit 0 (TYPE) to bit 21 (DEBUG). */
  datatype OptionType =
    | TYPE | UPPERLOWER | KRC | C | ANSIC | CPLUSPLUS | SEVENBIT | LENTABLE
    | COMP | CONST | ENUM | INCLUDE | GLOBAL | NULLSTRINGS | SHAREDLIB | SWITCH
    | NOTYPE | POSITIONS | DUP | NOLENGTH | RANDOM | DEBUG

  /** The bit an option occupies in the option word: its mask is 2 to this power. */
  function Bit(o: OptionType): (b: nat)
    ensures b < 22
  {
    match o
    case TYPE => 0
    case UPPERLOWER => 1
    case KRC => 2
    case C => 3
    case ANSIC => 4
    case CPLUSPLUS => 5
    case SEVENBIT => 6
    case LENTABLE => 7
    case COMP => 8
    case CONST => 9
    case ENUM => 10
    case INCLUDE => 11
    case GLOBAL => 12
    case NULLSTRINGS => 13
    case SHAREDLIB => 14
    case SWITCH => 15
    case NOTYPE => 16
    case POSITIONS => 17
    case DUP => 18
    case NOLENGTH => 19
    case RANDOM => 20
    case DEBUG => 21
  }

  /** The option occupying bit `b`, if any. */
  function FromBit(b: nat): Option<OptionType> {
    if b == 0 then Some(TYPE) else if b == 1 then Some(UPPERLOWER)
    else if b == 2 then Some(KRC) else if b == 3 then Some(C)
    else if b == 4 then Some(ANSIC) else if b == 5 then Some(CPLUSPLUS)
    else if b == 6 then Some(SEVENBIT) else if b == 7 then Some(LENTABLE)
    else if b == 8 then Some(COMP) else if b == 9 then Some(CONST)
    else if b == 10 then Some(ENUM) else if b == 11 then Some(INCLUDE)
    else if b == 12 then Some(GLOBAL) else if b == 13 then Some(NULLSTRINGS)
    else if b == 14 then Some(SHAREDLIB) else if b == 15 then Some(SWITCH)
    else if b == 16 then Some(NOTYPE) else if b == 17 then Some(POSITIONS)
    else if b == 18 then Some(DUP) else if b == 19 then Some(NOLENGTH)
    else if b == 20 then Some(RANDOM) else if b == 21 then Some(DEBUG)
    else None
  }

  /** Each option's bit identifies it. */
  lemma BitIdentifies(o: OptionType)
    ensures FromBit(Bit(o)) == Some(o)
  {
  }

  /**
   * No two options share a bit.  So the option word is determined by the
   * set of options whose bit is set, and the model keeps that set: setting
   * a bit is adding an option, clearing bits is removing options, and
   * testing a bit is membership.
   */
  lemma BitInjective(o: OptionType, p: OptionType)
    ensures Bit(o) == Bit(p) <==> o == p
  {
    BitIdentifies(o);
    BitIdentifies(p);
  }

  /** The options that choose the output language. */
  predicate IsLanguage(o: OptionType) {
    o == KRC || o == C || o == ANSIC || o == CPLUSPLUS
  }

  const LanguageOptions: set<OptionType> := {KRC, C, ANSIC, CPLUSPLUS}

  /** The language option a `-L` argument names; an unknown name means C. */
  function LanguageFor(name: string): (o: OptionType)
    ensures IsLanguage(o)
  {
    if name == "KR-C" then KRC
    else if name == "C" then C
    else if name == "ANSI-C" then ANSIC
    else if name == "C++" then CPLUSPLUS
    else C
  }

  /** The `-L` argument that names a language option. */
  function LanguageName(o: OptionType): string
    requires IsLanguage(o)
  {
    match o
    case KRC => "KR-C"
    case C => "C"
    case ANSIC => "ANSI-C"
    case CPLUSPLUS => "C++"
  }

  /** Every language option is selected by its own name. */
  lemma LanguageNamed(o: OptionType)
    requires IsLanguage(o)
    ensures LanguageFor(LanguageName(o)) == o
  {
  }

  /** The option word with the language options cleared and `lang` set. */
  function WithLanguage(w: set<OptionType>, lang: OptionType): set<OptionType>
    requires IsLanguage(lang)
  {
    (w - LanguageOptions) + {lang}
  }

  /** Selecting a language leaves exactly that language set and every other option as it was. */
  lemma WithLanguageExactlyOne(w: set<OptionType>, lang: OptionType)
    requires IsLanguage(lang)
    ensures forall p :: p in WithLanguage(w, lang) <==> if IsLanguage(p) then p == lang else p in w
  {
  }

  // ---------------------------------------------------------------------
  // Generated names
  // ---------------------------------------------------------------------

  /** The names the generated code uses, each with its own setter. */
  datatype NameKind =
    | FunctionName | SlotName | InitializerSuffix | ClassName | HashName
    | WordlistName | LengthtableName | StringpoolName | Delimiters

  /** A name is still the default until a setter or an option gives it a text. */
  datatype Name = Default | Given(text: string)

  /** The default texts; the length table's is spelled "lengthable". */
  function DefaultText(k: NameKind): string {
    match k
    case FunctionName => "in_word_set"
    case SlotName => "name"
    case InitializerSuffix => ""
    case ClassName => "Perfect_Hash"
    case HashName => "hash"
    case WordlistName => "wordlist"
    case LengthtableName => "lengthable"
    case StringpoolName => "stringpool"
    case Delimiters => ","
  }

  function NameText(k: NameKind, n: Name): string {
    match n
    case Default => DefaultText(k)
    case Given(text) => text
  }

  // ---------------------------------------------------------------------
  // The jump
  // ---------------------------------------------------------------------

  const DEFAULT_JUMP_VALUE: Int32 := 5

  /** The jump `-j` stores for a non-negative argument: an even nonzero value is made odd by adding 1. */
  function AdjustedJump(value: Int32): (r: Int32)
    ensures value <= r <= value + 1
    ensures value >= 0 ==> r == 0 || r % 2 == 1
    ensures r == value + 1 ==> value != 0 && value % 2 == 0
  {
    if value != 0 && value % 2 == 0 then value + 1 else value
  }

  /** A jump that has been adjusted needs no further adjustment. */
  lemma AdjustedJumpIdempotent(value: Int32)
    requires value >= 0
    ensures AdjustedJump(AdjustedJump(value)) == AdjustedJump(value)
  {
  }

  // ---------------------------------------------------------------------
  // Key positions from `-k`
  // ---------------------------------------------------------------------

  /** How the `-k` handler ends; every status but KeyOk ends the process in the source. */
  datatype KeyStatus = KeyOk | BadPosition | DuplicatePositions | NoPositions

  const BAD_VALUE: int := -3
  const EOS: int := -2

  /** The parser `-k` uses: positions 1 .. MAX_KEY_POS, '$' as LASTCHAR. */
  function KeyConfig(arg: string): PositionStrings.ParserConfig {
    PositionStrings.ParserConfig(arg, 1, KeyPositions.MAX_KEY_POS, KeyPositions.LASTCHAR, BAD_VALUE, EOS)
  }

  /** The values a `-k` argument denotes. */
  ghost function Requested(arg: string): PositionStrings.Yield {
    PositionStrings.Denoted(KeyConfig(arg), 0)
  }

  /** The positions stored for parsed values: 0-based, LASTCHAR kept. */
  function ZeroBased(vs: seq<int>): (r: seq<int>)
    ensures |r| == |vs|
    ensures forall i :: 0 <= i < |vs| ==> r[i] == if vs[i] == KeyPositions.LASTCHAR then vs[i] else vs[i] - 1
  {
    if |vs| == 0 then []
    else ZeroBased(vs[..|vs| - 1]) + [if vs[|vs| - 1] == KeyPositions.LASTCHAR then vs[|vs| - 1] else vs[|vs| - 1] - 1]
  }

  /** Stores a parsed value in slot `count`, 0-based unless it is LASTCHAR. */
  method StoreValue(keyPos: array<int>, count: nat, value: int, ghost got: seq<int>)
    requires count == |got| < keyPos.Length && keyPos[..count] == ZeroBased(got)
    modifies keyPos
    ensures keyPos[..count + 1] == ZeroBased(got + [value])
  {
    var stored := value;
    if stored != KeyPositions.LASTCHAR {
      stored := stored - 1;
    }
    keyPos[count] := stored;
    ZeroBasedSnoc(got, value);
    assert keyPos[..count + 1] == keyPos[..count] + [stored];
  }

  lemma ZeroBasedSnoc(vs: seq<int>, v: int)
    ensures ZeroBased(vs + [v]) == ZeroBased(vs) + [if v == KeyPositions.LASTCHAR then v else v - 1]
  {
    assert (vs + [v])[..|vs|] == vs;
  }

  /**
   * The status of `-k` with an argument not starting with '*': a value
   * beyond the MAX_SIZE-th is reported as a duplicate, then an invalid
   * value or range, then an empty list, then a repeated position.
   */
  ghost function KeyOutcome(arg: string): KeyStatus {
    var y := Requested(arg);
    if |y.values| > KeyPositions.MAX_SIZE then DuplicatePositions
    else if y.outcome == PositionStrings.Error then BadPosition
    else if |y.values| == 0 then NoPositions
    else if !KeyPositions.DuplicateFree(ZeroBased(y.values)) then DuplicatePositions
    else KeyOk
  }

  /** The stored positions are real 0-based positions or LASTCHAR. */
  lemma RequestedInDomain(arg: string)
    ensures KeyPositions.InDomain(ZeroBased(Requested(arg).values))
  {
    var cfg := KeyConfig(arg);
    var vs := Requested(arg).values;
    PositionStrings.DenotedBounds(cfg, 0);
    forall i | 0 <= i < |vs| ensures KeyPositions.LASTCHAR <= ZeroBased(vs)[i] < KeyPositions.MAX_KEY_POS {
      assert vs[i] in vs;
    }
  }

  /**
   * The capacity check is sound: more than MAX_SIZE requested values
   * always repeat a position, so "duplicate" is the right report; and `-k`
   * succeeds exactly when the text is well formed, names some position,
   * and names none twice.
   */
  lemma KeyOutcomeMeaning(arg: string)
    ensures |Requested(arg).values| > KeyPositions.MAX_SIZE ==>
      !KeyPositions.DuplicateFree(ZeroBased(Requested(arg).values))
    ensures KeyOutcome(arg) == KeyOk <==>
      Requested(arg).outcome == PositionStrings.End && |Requested(arg).values| > 0 &&
      KeyPositions.DuplicateFree(ZeroBased(Requested(arg).values))
  {
    var zs := ZeroBased(Requested(arg).values);
    RequestedInDomain(arg);
    if KeyPositions.DuplicateFree(zs) {
      KeyPositions.DuplicateFreeBound(zs);
    }
  }

  /** One call of the parser, stated in terms of what the caller still receives. */
  method NextValue(parser: PositionStrings.PositionStringParser, ghost cfg: PositionStrings.ParserConfig) returns (value: int)
    requires PositionStrings.MarkersApart(cfg)
    requires parser.Config() == cfg && PositionStrings.Valid(cfg, parser.State())
    modifies parser
    ensures parser.Config() == cfg && parser.cursor <= |cfg.str|
    ensures value == cfg.end ==> PositionStrings.Drain(cfg, old(parser.State())) == PositionStrings.Yield([], PositionStrings.End)
    ensures value == cfg.error ==> PositionStrings.Drain(cfg, old(parser.State())) == PositionStrings.Yield([], PositionStrings.Error)
    ensures value != cfg.end && value != cfg.error ==>
      PositionStrings.Valid(cfg, parser.State()) &&
      PositionStrings.Drain(cfg, old(parser.State())) == PositionStrings.Cons(value, PositionStrings.Drain(cfg, parser.State()))
    ensures value != cfg.end && value != cfg.error ==>
      parser.cursor > old(parser.cursor) ||
      (parser.cursor == old(parser.cursor) && 0 <= PositionStrings.RangeLeft(parser.State()) < PositionStrings.RangeLeft(old(parser.State())))
  {
    ghost var st := parser.State();
    value := parser.NextPosition();
    PositionStrings.DrainStep(cfg, st);
    PositionStrings.StepDecreases(cfg, st);
  }

  lemma ConcatCons(got: seq<int>, v: int, rest: PositionStrings.Yield)
    ensures PositionStrings.Concat(got, PositionStrings.Cons(v, rest)) == PositionStrings.Concat(got + [v], rest)
  {
    assert got + ([v] + rest.values) == (got + [v]) + rest.values;
  }

  /**
   * The loop of the `-k` handler: stores each value the parser returns,
   * 0-based, in the next slot of `keyPos` until the end marker, an invalid
   * value, or a value beyond the MAX_SIZE-th. KeyOk reports the end marker.
   */
  method ReadPositions(parser: PositionStrings.PositionStringParser, keyPos: array<int>)
    returns (count: nat, status: KeyStatus)
    requires parser.Config() == KeyConfig(parser.str)
    requires parser.State() == PositionStrings.ParserState(0, false, 0, 0)
    requires keyPos.Length == KeyPositions.MAX_SIZE
    modifies parser, keyPos
    ensures status == DuplicatePositions <==> |Requested(parser.str).values| > KeyPositions.MAX_SIZE
    ensures status == BadPosition <==>
      |Requested(parser.str).values| <= KeyPositions.MAX_SIZE && Requested(parser.str).outcome == PositionStrings.Error
    ensures status == KeyOk <==>
      |Requested(parser.str).values| <= KeyPositions.MAX_SIZE && Requested(parser.str).outcome == PositionStrings.End
    ensures status == KeyOk ==> count == |Requested(parser.str).values| && keyPos[..count] == ZeroBased(Requested(parser.str).values)
  {
    ghost var cfg := parser.Config();
    ghost var y := Requested(parser.str);
    PositionStrings.DrainIdle(cfg, parser.State());
    ghost var got: seq<int> := [];
    count := 0;
    while true
      invariant parser.Config() == cfg
      invariant PositionStrings.Valid(cfg, parser.State())
      invariant count == |got| <= KeyPositions.MAX_SIZE
      invariant keyPos[..count] == ZeroBased(got)
      invariant PositionStrings.Concat(got, PositionStrings.Drain(cfg, parser.State())) == y
      decreases |parser.str| - parser.cursor, PositionStrings.RangeLeft(parser.State())
    {
      var value := NextValue(parser, cfg);
      if value == EOS {
        assert y == PositionStrings.Yield(got, PositionStrings.End);
        return count, KeyOk;
      }
      if value == BAD_VALUE {
        assert y == PositionStrings.Yield(got, PositionStrings.Error);
        return count, BadPosition;
      }
      ConcatCons(got, value, PositionStrings.Drain(cfg, parser.State()));
      if count == KeyPositions.MAX_SIZE {
        assert |y.values| > KeyPositions.MAX_SIZE;
        return count, DuplicatePositions;
      }
      StoreValue(keyPos, count, value, got);
      got := got + [value];
      count := count + 1;
    }
  }

  // ---------------------------------------------------------------------
  // The option record
  // ---------------------------------------------------------------------

  /** The record's scalar state, for stating what a call leaves unchanged. */
  datatype Settings = Settings(
    optionWord: set<OptionType>, language: Option<string>, jump: Int32, initialAssoValue: Int32,
    assoIterations: Int32, totalSwitches: Int32, names: map<NameKind, Name>)

  class Options {
    /** The option word: the options whose bit is set. */
    var optionWord: set<OptionType>
    /** The output language given, if any. */
    var language: Option<string>
    /** Jump length when trying alternative values. */
    var jump: Int32
    /** Initial value for the associated values table. */
    var initialAssoValue: Int32
    /** Number of attempts at finding good associated values. */
    var assoIterations: Int32
    /** Number of switch statements to generate. */
    var totalSwitches: Int32
    /** The names used in the generated code. */
    var names: map<NameKind, Name>
    /** The user-specified key positions. */
    const keyPositions: KeyPositions.Positions

    ghost predicate Valid()
      reads this, keyPositions
    {
      keyPositions.Wellformed() && forall k: NameKind :: k in names
    }

    ghost function Snapshot(): Settings
      reads this
    {
      Settings(optionWord, language, jump, initialAssoValue, assoIterations, totalSwitches, names)
    }

    /** The defaults: C output, jump 5, one switch, every name its default, no key positions. */
    constructor ()
      ensures Valid() && fresh(keyPositions) && fresh(keyPositions.positions)
      ensures optionWord == {C}
      ensures language == None && jump == DEFAULT_JUMP_VALUE && totalSwitches == 1
      ensures initialAssoValue == 0 && assoIterations == 0
      ensures forall k :: names[k] == Default
      ensures keyPositions.Contents() == [] && !keyPositions.useall
    {
      optionWord := {C};
      language := None;
      jump := DEFAULT_JUMP_VALUE;
      initialAssoValue, assoIterations := 0, 0;
      totalSwitches := 1;
      names := map[
        FunctionName := Default, SlotName := Default, InitializerSuffix := Default,
        ClassName := Default, HashName := Default, WordlistName := Default,
        LengthtableName := Default, StringpoolName := Default, Delimiters := Default];
      keyPositions := new KeyPositions.Positions();
      new;
      forall k: NameKind ensures k in names && names[k] == Default {
        match k
        case FunctionName =>
        case SlotName =>
        case InitializerSuffix =>
        case ClassName =>
        case HashName =>
        case WordlistName =>
        case LengthtableName =>
        case StringpoolName =>
        case Delimiters =>
      }
    }

    /** Whether option `o` is set. */
    predicate Has(o: OptionType)
      reads this
    {
      o in optionWord
    }

    /** Sets option `o`. */
    method Set(o: OptionType)
      modifies this
      ensures Snapshot() == old(Snapshot()).(optionWord := old(optionWord) + {o})
    {
      optionWord := optionWord + {o};
    }

    /** Chooses the output language, unless one has been chosen already. */
    method SetLanguage(name: string)
      modifies this
      ensures old(language).None? ==>
        Snapshot() == old(Snapshot()).(language := Some(name), optionWord := WithLanguage(old(optionWord), LanguageFor(name)))
      ensures old(language).Some? ==> Snapshot() == old(Snapshot())
    {
      if language.None? {
        language := Some(name);
        optionWord := WithLanguage(optionWord, LanguageFor(name));
      }
    }

    /** `-L name`: forgets any earlier choice, then chooses `name`'s language. */
    method OptionLanguage(name: string)
      modifies this
      ensures Snapshot() == old(Snapshot()).(language := Some(name), optionWord := WithLanguage(old(optionWord), LanguageFor(name)))
      ensures forall p :: Has(p) <==> if IsLanguage(p) then p == LanguageFor(name) else old(Has(p))
    {
      language := None;
      SetLanguage(name);
      WithLanguageExactlyOne(old(optionWord), LanguageFor(name));
    }

    /** Sets the number of switches and the SWITCH option, unless SWITCH is set already. */
    method SetTotalSwitches(n: Int32)
      modifies this
      ensures old(Has(SWITCH)) ==> Snapshot() == old(Snapshot())
      ensures !old(Has(SWITCH)) ==>
        Snapshot() == old(Snapshot()).(optionWord := old(optionWord) + {SWITCH}, totalSwitches := n)
    {
      if SWITCH !in optionWord {
        optionWord := optionWord + {SWITCH};
        totalSwitches := n;
      }
    }

    /** The text of name `k`. */
    function GetName(k: NameKind): string
      reads this
      requires k in names
    {
      NameText(k, names[k])
    }

    /** Gives name `k` the text `s`, unless it has been given one already. */
    method SetName(k: NameKind, s: string)
      requires Valid()
      modifies this
      ensures Valid()
      ensures old(names[k]) == Default ==> Snapshot() == old(Snapshot()).(names := old(names)[k := Given(s)])
      ensures old(names[k]) == Default ==> GetName(k) == s
      ensures old(names[k]) != Default ==> Snapshot() == old(Snapshot())
    {
      if names[k] == Default {
        names := names[k := Given(s)];
      }
    }

    /**
     * `-j value`: a negative jump is rejected (the process ends); an even
     * nonzero jump is made odd.
     */
    method OptionJump(value: Int32) returns (ok: bool)
      modifies this
      ensures ok <==> value >= 0
      ensures Snapshot() == old(Snapshot()).(jump := if ok then AdjustedJump(value) else value)
      ensures ok ==> jump == 0 || jump % 2 == 1
    {
      jump := value;
      if jump < 0 {
        return false;
      } else if jump != 0 && jump % 2 == 0 {
        jump := jump + 1;
      }
      return true;
    }

    /**
     * `-k arg`: sets POSITIONS; a leading '*' selects every position;
     * otherwise the values the text denotes, 0-based, become the key
     * positions, sorted largest first.
     */
    method OptionKeyPositions(arg: string) returns (status: KeyStatus)
      requires Valid()
      modifies this, keyPositions, keyPositions.positions
      ensures Valid()
      ensures Snapshot() == old(Snapshot()).(optionWord := old(optionWord) + {POSITIONS})
      ensures |arg| > 0 && arg[0] == '*' ==>
        status == KeyOk && keyPositions.useall && keyPositions.Contents() == KeyPositions.AllPositions()
      ensures !(|arg| > 0 && arg[0] == '*') ==> !keyPositions.useall && status == KeyOutcome(arg)
      ensures !(|arg| > 0 && arg[0] == '*') && status == KeyOk ==>
        keyPositions.Valid() && keyPositions.Contents() == KeyPositions.SortDescending(ZeroBased(Requested(arg).values))
    {
      optionWord := optionWord + {POSITIONS};
      var parser := new PositionStrings.PositionStringParser(
        arg, 1, KeyPositions.MAX_KEY_POS, KeyPositions.LASTCHAR, BAD_VALUE, EOS);
      if |arg| > 0 && arg[0] == '*' {
        keyPositions.SetUseall(true);
        status := KeyOk;
      } else {
        status := StorePositions(parser);
      }
    }

    /** The part of `-k` after a text not starting with '*': parse, store, check, sort. */
    method StorePositions(parser: PositionStrings.PositionStringParser) returns (status: KeyStatus)
      requires keyPositions.Wellformed()
      requires parser.Config() == KeyConfig(parser.str)
      requires parser.State() == PositionStrings.ParserState(0, false, 0, 0)
      modifies keyPositions, keyPositions.positions, parser
      ensures keyPositions.Wellformed() && !keyPositions.useall
      ensures status == KeyOutcome(parser.str)
      ensures status == KeyOk ==>
        keyPositions.Valid() && keyPositions.Contents() == KeyPositions.SortDescending(ZeroBased(Requested(parser.str).values))
    {
      ghost var y := Requested(parser.str);
      keyPositions.SetUseall(false);
      var keyPos := keyPositions.Pointer();
      var count;
      count, status := ReadPositions(parser, keyPos);
      if status != KeyOk {
        return;
      }
      if count == 0 {
        return NoPositions;
      }
      keyPositions.SetSize(count);
      assert keyPositions.Contents() == ZeroBased(y.values);
      var ok := keyPositions.Sort();
      if !ok {
        return DuplicatePositions;
      }
      return KeyOk;
    }
  }
}
