/**
 * Reading the batch configuration from the console: two positive integers
 * (the image count and the parallel limit), each re-prompted until valid, then a
 * save path that defaults to "./outputs" when left blank.
 *
 * The console is the sequence of lines the user types. Reading past the last
 * line is `Console.ReadLine()` returning null (end of input).
 */
module ConsoleInput {
  import opened Wrappers
  import opened Decimal

  const Int32Min := -0x8000_0000
  const Int32Max := 0x7FFF_FFFF

  /** The white space int.TryParse skips around a number: tab, line feed, vertical tab, form feed, carriage return and space. */
  predicate IsParseWhite(c: char) {
    c == ' ' || '\t' <= c <= '\r'
  }

  function TrimStart(s: string): (t: string)
    ensures |t| <= |s| && t == s[|s| - |t|..]
    ensures t == [] || !IsParseWhite(t[0])
  {
    if s != [] && IsParseWhite(s[0]) then TrimStart(s[1..]) else s
  }

  function TrimEnd(s: string): (t: string)
    ensures |t| <= |s| && t == s[..|t|]
    ensures t == [] || !IsParseWhite(t[|t| - 1])
  {
    if s != [] && IsParseWhite(s[|s| - 1]) then TrimEnd(s[..|s| - 1]) else s
  }

  /** The digits of a numeral once its optional leading sign is dropped. */
  function Magnitude(t: string): string {
    if |t| > 0 && (t[0] == '-' || t[0] == '+') then t[1..] else t
  }

  /**
   * `int.TryParse(line, out n)` with the default integer style: optional white
   * space, an optional sign, at least one decimal digit, optional white space,
   * and a value that fits in 32 bits. A null line never parses.
   */
  function TryParseInt32(line: Option<string>): (r: Option<int>)
    ensures line.None? ==> r.None?
    ensures r.Some? ==> Int32Min <= r.value <= Int32Max
  {
    if line.None? then None
    else
      var t := TrimEnd(TrimStart(line.value));
      var digits := Magnitude(t);
      if |digits| == 0 || !AllDigits(digits) then None
      else
        var v := if t[0] == '-' then 0 - DecimalValue(digits) else DecimalValue(digits);
        if Int32Min <= v <= Int32Max then Some(v) else None
  }

  /** Every 32-bit value, rendered in decimal, parses back to itself. */
  lemma TryParseIntString(n: int)
    requires Int32Min <= n <= Int32Max
    ensures TryParseInt32(Some(IntString(n))) == Some(n)
  {
    var s := IntString(n);
    var magnitude: nat := if n < 0 then -n else n;
    var d := DecimalString(magnitude);
    assert s == if n < 0 then "-" + d else d;
    assert !IsParseWhite(s[0]);
    assert TrimStart(s) == s;
    assert s[|s| - 1] == d[|d| - 1];
    assert TrimEnd(s) == s;
    assert Magnitude(s) == d;
    DecimalRoundTrip(magnitude);
  }

  /** What int.TryParse makes of each line the user typed. */
  function ParseLines(lines: seq<string>): (parsed: seq<Option<int>>)
    ensures |parsed| == |lines|
    decreases |lines|
  {
    if lines == [] then []
    else ParseLines(lines[..|lines| - 1]) + [TryParseInt32(Some(lines[|lines| - 1]))]
  }

  lemma {:induction false} ParseLinesAt(lines: seq<string>, k: nat)
    requires k < |lines|
    ensures ParseLines(lines)[k] == TryParseInt32(Some(lines[k]))
    decreases |lines|
  {
    if k < |lines| - 1 {
      ParseLinesAt(lines[..|lines| - 1], k);
    }
  }

  /** The loop in GetPositiveIntegerInput leaves on a line exactly when this holds of what it parsed to. */
  predicate Accepts(parsed: Option<int>) {
    parsed.Some? && parsed.value > 0
  }

  /**
   * What the prompt loop yields when it starts reading at line `start`: the
   * first accepted line's value and the position after it, or None when the
   * input runs out first (from then on every read is null and the source keeps
   * re-prompting for ever).
   */
  function ScanPositive(parsed: seq<Option<int>>, start: nat): (r: (Option<int>, nat))
    ensures r.0.Some? ==> start < r.1 <= |parsed| && r.0 == parsed[r.1 - 1] && Accepts(r.0)
    ensures r.0.None? ==> forall j :: start <= j < |parsed| ==> !Accepts(parsed[j])
    decreases |parsed| - start
  {
    if start >= |parsed| then (None, start)
    else if Accepts(parsed[start]) then (parsed[start], start + 1)
    else ScanPositive(parsed, start + 1)
  }

  /** The line the scan stops at is the first accepted one: every line read before it was refused. */
  lemma {:induction false} ScanPositiveFirst(parsed: seq<Option<int>>, start: nat, j: nat)
    requires ScanPositive(parsed, start).0.Some?
    requires start <= j < ScanPositive(parsed, start).1 - 1
    ensures !Accepts(parsed[j])
    decreases |parsed| - start
  {
    if j > start {
      ScanPositiveFirst(parsed, start + 1, j);
    }
  }

  /**
   * Lines 86-94: re-read until a line parses as an int greater than zero.
   * The number returned is that of the first such line, and lies in 1..int.MaxValue.
   */
  method GetPositiveIntegerInput(lines: seq<string>, start: nat) returns (number: Option<int>, next: nat)
    ensures (number, next) == ScanPositive(ParseLines(lines), start)
    ensures number.Some? ==> 0 < number.value <= Int32Max
  {
    ghost var parsed := ParseLines(lines);
    var pos := start;
    while pos < |lines|
      invariant start <= pos
      invariant ScanPositive(parsed, pos) == ScanPositive(parsed, start)
      decreases |lines| - pos
    {
      var value := TryParseInt32(Some(lines[pos]));
      ParseLinesAt(lines, pos);
      assert value == parsed[pos];
      if value.Some? && value.value > 0 {
        return value, pos + 1;
      }
      pos := pos + 1;
    }
    return None, pos;
  }

  /** `string.IsNullOrWhiteSpace`: the white-space characters of `char.IsWhiteSpace`. */
  predicate IsWhiteSpace(c: char) {
    var k := c as int;
    k == 0x20 || 0x09 <= k <= 0x0D || k == 0x85 || k == 0xA0 || k == 0x1680
    || 0x2000 <= k <= 0x200A || k == 0x2028 || k == 0x2029 || k == 0x202F
    || k == 0x205F || k == 0x3000
  }

  predicate IsNullOrWhiteSpace(s: Option<string>) {
    s.None? || forall k :: 0 <= k < |s.value| ==> IsWhiteSpace(s.value[k])
  }

  const DefaultSavePath := "./outputs"

  /** Lines 81-83: a blank or missing save path becomes "./outputs"; any other line is kept as typed. */
  function ResolveSavePath(line: Option<string>): (path: string)
    ensures !IsNullOrWhiteSpace(Some(path))
    ensures IsNullOrWhiteSpace(line) ==> path == DefaultSavePath
    ensures !IsNullOrWhiteSpace(line) ==> line == Some(path)
  {
    assert !IsWhiteSpace(DefaultSavePath[0]);
    if IsNullOrWhiteSpace(line) then DefaultSavePath else line.value
  }

  /** The static configuration ReadInput fills in. */
  datatype Config = Config(totalCount: int, parallelism: int, savePath: string)

  predicate ValidConfig(c: Config) {
    0 < c.totalCount <= Int32Max && 0 < c.parallelism <= Int32Max
    && !IsNullOrWhiteSpace(Some(c.savePath))
  }

  function LineAt(lines: seq<string>, k: nat): Option<string> {
    if k < |lines| then Some(lines[k]) else None
  }

  /**
   * Lines 72-84. None stands for the source never returning: the input ended
   * while one of the two integer prompts was still waiting for a valid line.
   */
  method ReadInput(lines: seq<string>) returns (config: Option<Config>)
    ensures config.Some? ==> ValidConfig(config.value)
    ensures var (count, afterCount) := ScanPositive(ParseLines(lines), 0);
      var (limit, afterLimit) := ScanPositive(ParseLines(lines), afterCount);
      && (config.Some? <==> count.Some? && limit.Some?)
      && (config.Some? ==>
            config.value == Config(count.value, limit.value, ResolveSavePath(LineAt(lines, afterLimit))))
  {
    var count, afterCount := GetPositiveIntegerInput(lines, 0);
    var limit, afterLimit := GetPositiveIntegerInput(lines, afterCount);
    if count.None? || limit.None? {
      return None;
    }
    var savePath := ResolveSavePath(LineAt(lines, afterLimit));
    return Some(Config(count.value, limit.value, savePath));
  }
}
