/** The text form of LDAP filters (RFC 4515 section 3): parsing. */
module FilterParser {
  import opened Text
  import opened Filters

  // ---- Assertion values ----

  predicate IsHexByte(c: char) {
    '0' <= c <= '9' || 'a' <= c <= 'f' || 'A' <= c <= 'F'
  }

  function HexDigit(c: char): (n: nat)
    requires IsHexByte(c)
    ensures n < 16
  {
    if '0' <= c <= '9' then c as nat - '0' as nat
    else if 'a' <= c <= 'f' then c as nat - 'a' as nat + 10
    else c as nat - 'A' as nat + 10
  }

  /** A backslash and two hexadecimal digits start here. */
  predicate StartsEscape(s: string) {
    |s| > 2 && s[0] == '\\' && IsHexByte(s[1]) && IsHexByte(s[2])
  }

  function DecodedChar(s: string, preserve: bool): char
    requires StartsEscape(s)
  {
    var n := 16 * HexDigit(s[1]) + HexDigit(s[2]);
    if preserve && n as char == '*' then ESCAPED_ASTERISK else n as char
  }

  /** decodeLDAPFilterValue */
  function Decode(s: string, preserve: bool): string {
    if s == [] then []
    else if StartsEscape(s) then [DecodedChar(s, preserve)] + Decode(s[3..], preserve)
    else [s[0]] + Decode(s[1..], preserve)
  }

  lemma AppendOne(a: string, c: char, b: string)
    ensures (a + [c]) + b == a + ([c] + b)
  {
  }

  method DecodeValue(value: string, preserve: bool) returns (decoded: string)
    ensures decoded == Decode(value, preserve)
  {
    hide DecodedChar, IsHexByte;
    decoded := "";
    var i := 0;
    assert value[0..] == value;
    while i < |value|
      invariant i <= |value|
      invariant decoded + Decode(value[i..], preserve) == Decode(value, preserve)
    {
      var rest := value[i..];
      if value[i] == '\\' && i + 2 < |value| && IsHexByte(value[i + 1]) && IsHexByte(value[i + 2]) {
        assert rest[3..] == value[i + 3..];
        AppendOne(decoded, DecodedChar(rest, preserve), Decode(rest[3..], preserve));
        decoded := decoded + [DecodedChar(rest, preserve)];
        i := i + 3;
      } else {
        assert rest[1..] == value[i + 1..];
        AppendOne(decoded, value[i], Decode(rest[1..], preserve));
        decoded := decoded + [value[i]];
        i := i + 1;
      }
    }
  }

  predicate HasWildcard(s: string) {
    if s == [] then false
    else if StartsEscape(s) then HasWildcard(s[3..])
    else s[0] == '*' || HasWildcard(s[1..])
  }

  /** containsUnescapedWildcard */
  method ScanWildcard(value: string) returns (r: bool)
    ensures r == HasWildcard(value)
  {
    var i := 0;
    assert value[0..] == value;
    while i < |value|
      invariant i <= |value|
      invariant HasWildcard(value[i..]) == HasWildcard(value)
    {
      var rest := value[i..];
      if value[i] == '\\' && i + 2 < |value| && IsHexByte(value[i + 1]) && IsHexByte(value[i + 2]) {
        assert rest[3..] == value[i + 3..];
        i := i + 3;
        continue;
      }
      assert rest[1..] == value[i + 1..];
      if value[i] == '*' {
        return true;
      }
      i := i + 1;
    }
    return false;
  }

  // ---- Items ----

  datatype ItemResult = NoItem | Item(filter: Filter)

  function AfterOperator(part: string, i: int): string
    requires 0 <= i && i + 2 <= |part|
  {
    Decode(TrimSpace(part[i + 2..]), false)
  }

  /** The text between the parentheses of a simple filter. */
  function ParseItem(part: string): ItemResult {
    var ge, le, approx, eq := Index(part, ">="), Index(part, "<="), Index(part, "~="), IndexByte(part, '=');
    if ge != -1 then Item(GreaterOrEqual(TrimSpace(part[..ge]), AfterOperator(part, ge)))
    else if le != -1 then Item(LessOrEqual(TrimSpace(part[..le]), AfterOperator(part, le)))
    else if approx != -1 then Item(Approx(TrimSpace(part[..approx]), AfterOperator(part, approx)))
    else if eq == -1 then NoItem
    else
      var attribute, raw := TrimSpace(part[..eq]), TrimSpace(part[eq + 1..]);
      if raw == "*" then Item(Present(attribute))
      else if HasWildcard(raw) then Item(Substrings(attribute, Decode(raw, true)))
      else Item(Equality(attribute, Decode(raw, false)))
  }

  // ---- Trees ----

  datatype ParseResult = ParseError | Parsed(filter: Filter, pos: nat)

  datatype ListResult = ListError | ParsedList(filters: seq<Filter>, pos: nat)

  /** parseFilterRecursive */
  function ParseAt(s: string, pos: nat): (r: ParseResult)
    ensures r.Parsed? ==> pos < r.pos <= |s|
    decreases |s| - pos, 0
  {
    if pos + 1 >= |s| || s[pos] != '(' then ParseError
    else if s[pos + 1] == '&' then
      match ParseList(s, pos + 2)
      case ListError => ParseError
      case ParsedList(filters, p) => if p < |s| && s[p] == ')' then Parsed(And(filters), p + 1) else ParseError
    else if s[pos + 1] == '|' then
      match ParseList(s, pos + 2)
      case ListError => ParseError
      case ParsedList(filters, p) => if p < |s| && s[p] == ')' then Parsed(Or(filters), p + 1) else ParseError
    else if s[pos + 1] == '!' then
      match ParseAt(s, pos + 2)
      case ParseError => ParseError
      case Parsed(f, p) => if p < |s| && s[p] == ')' then Parsed(Not([f]), p + 1) else ParseError
    else
      var end := IndexByte(s[pos + 1..], ')');
      if end == -1 then ParseError
      else
        match ParseItem(s[pos + 1..pos + 1 + end])
        case NoItem => ParseError
        case Item(f) => Parsed(f, pos + 1 + end + 1)
  }

  /** The sub-filters that follow one another from `pos`. */
  function ParseList(s: string, pos: nat): (r: ListResult)
    ensures r.ParsedList? ==> pos <= r.pos
    decreases |s| - pos, 1
  {
    if pos < |s| && s[pos] == '(' then
      match ParseAt(s, pos)
      case ParseError => ListError
      case Parsed(f, p) =>
        if p >= |s| then ListError
        else
          match ParseList(s, p)
          case ListError => ListError
          case ParsedList(filters, q) => ParsedList([f] + filters, q)
    else ParsedList([], pos)
  }

  method ParseMany(s: string, start: nat) returns (r: ListResult)
    ensures r == ParseList(s, start)
    decreases |s| - start, 1
  {
    var filters, pos := [], start;
    while pos < |s| && s[pos] == '('
      invariant start <= pos
      invariant ParseList(s, start) ==
        match ParseList(s, pos) case ListError => ListError case ParsedList(more, q) => ParsedList(filters + more, q)
      decreases |s| - pos
    {
      var sub := ParseRecursive(s, pos);
      if sub.ParseError? {
        return ListError;
      }
      ghost var rest := ParseList(s, sub.pos);
      assert rest.ParsedList? ==> filters + ([sub.filter] + rest.filters) == (filters + [sub.filter]) + rest.filters;
      filters := filters + [sub.filter];
      pos := sub.pos;
      if pos >= |s| {
        return ListError;
      }
    }
    return ParsedList(filters, pos);
  }

  method ParseRecursive(s: string, start: nat) returns (r: ParseResult)
    ensures r == ParseAt(s, start)
    decreases |s| - start, 0
  {
    hide ParseItem, ParseList, IndexByte;
    var pos := start;
    if pos >= |s| || s[pos] != '(' {
      return ParseError;
    }
    pos := pos + 1;
    if pos >= |s| {
      return ParseError;
    }
    if s[pos] == '&' || s[pos] == '|' {
      var list := ParseMany(s, pos + 1);
      if list.ListError? || list.pos >= |s| || s[list.pos] != ')' {
        return ParseError;
      }
      return Parsed(if s[pos] == '&' then And(list.filters) else Or(list.filters), list.pos + 1);
    }
    if s[pos] == '!' {
      var sub := ParseRecursive(s, pos + 1);
      if sub.ParseError? || sub.pos >= |s| || s[sub.pos] != ')' {
        return ParseError;
      }
      return Parsed(Not([sub.filter]), sub.pos + 1);
    }
    var end := IndexByte(s[pos..], ')');
    if end == -1 {
      return ParseError;
    }
    var item := ParseItem(s[pos..pos + end]);
    if item.NoItem? {
      return ParseError;
    }
    return Parsed(item.filter, pos + end + 1);
  }

  /** ParseFilter; what follows the first filter is ignored, as the code does. */
  function ParseFilter(text: string): ItemResult {
    if text == "" then Item(Present("objectClass"))
    else
      var s := TrimSpace(text);
      if s == "" || s[0] != '(' || s[|s| - 1] != ')' then NoItem
      else match ParseAt(s, 0)
        case ParseError => NoItem
        case Parsed(f, _) => Item(f)
  }

  // ---- Escapes in either case ----

  const LOWER_DIGITS := "0123456789abcdef"
  const UPPER_DIGITS := "0123456789ABCDEF"

  lemma HexDigitExact(d: nat)
    requires d < 16
    ensures IsHexByte(LOWER_DIGITS[d]) && HexDigit(LOWER_DIGITS[d]) == d
    ensures IsHexByte(UPPER_DIGITS[d]) && HexDigit(UPPER_DIGITS[d]) == d
  {
  }

  /** Every byte of a value written as a backslash and two digits, as section 3 of RFC 4515 allows. */
  function FullyEscaped(value: string, digits: string): string
    requires digits == LOWER_DIGITS || digits == UPPER_DIGITS
  {
    if value == "" then ""
    else
      var n := value[0] as int % 256;
      ['\\', digits[n / 16], digits[n % 16]] + FullyEscaped(value[1..], digits)
  }

  lemma OneEscaped(n: nat, digits: string, rest: string)
    requires n < 256 && (digits == LOWER_DIGITS || digits == UPPER_DIGITS)
    ensures Decode(['\\', digits[n / 16], digits[n % 16]] + rest, false) == [n as char] + Decode(rest, false)
    ensures HasWildcard(['\\', digits[n / 16], digits[n % 16]] + rest) == HasWildcard(rest)
  {
    hide HexDigit, IsHexByte;
    var s := ['\\', digits[n / 16], digits[n % 16]] + rest;
    HexDigitExact(n / 16);
    HexDigitExact(n % 16);
    assert s[0] == '\\' && s[1] == digits[n / 16] && s[2] == digits[n % 16] && s[3..] == rest;
  }

  /** Decoding a value with every byte escaped, in either case, gives the value. */
  lemma {:induction false} FullyEscapedDecodes(value: string, digits: string)
    requires (digits == LOWER_DIGITS || digits == UPPER_DIGITS) && forall c :: c in value ==> c as int < 256
    ensures Decode(FullyEscaped(value, digits), false) == value
    ensures !HasWildcard(FullyEscaped(value, digits))
  {
    hide Decode, HasWildcard;
    if value == "" {
      NothingDecoded();
    } else {
      var n := value[0] as int % 256;
      assert value[0] in value && value == [value[0]] + value[1..];
      assert forall c :: c in value[1..] ==> c in value;
      FullyEscapedDecodes(value[1..], digits);
      OneEscaped(n, digits, FullyEscaped(value[1..], digits));
    }
  }

  lemma NothingDecoded()
    ensures Decode("", false) == "" && !HasWildcard("")
  {
  }
}
