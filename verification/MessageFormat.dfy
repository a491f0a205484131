/**
 Compilation of a message-list format into a format string for Go's printf and its
 argument list (ParseMessageFormat in lib/format/format.go), on strings of bytes.
 */
module MessageFormat {
  import opened Collections

  datatype Address = Address(name: string, address: string)

  /** Dates are given as the library formats them; None is the zero time. */
  datatype Envelope = Envelope(
    date: Option<string>, subject: string, messageId: string,
    from: seq<Address>, replyTo: seq<Address>, to: seq<Address>, cc: seq<Address>)

  datatype Flag = Seen | Recent | Answered | Deleted | Flagged

  /** accountFrom is the account's own address as parsed, None if it does not parse. */
  datatype Ctx = Ctx(
    accountFrom: Option<Address>, accountName: string, msgNum: int, marked: bool,
    envelope: Option<Envelope>, labels: seq<string>, flags: seq<Flag>, size: nat,
    internalDate: Option<string>, timeFmtLen: nat)

  datatype Arg = Str(s: string) | Int(n: int)

  /** Fault is an index out of range or a nil pointer in the source. */
  datatype Outcome<+T> = Ok(value: T) | Err | Fault

  // Values

  /** The characters of the atom regular expression; '+-/' in it is a range. */
  predicate IsAtomChar(c: char) {
    'a' <= c <= 'z' || '0' <= c <= '9' || '+' <= c <= '/' ||
    c in {'!', '#', '$', '%', '\'', '*', '=', '?', '^', '_', '`', '{', '}', '|', '~', ' '}
  }

  predicate IsAtom(s: string) {
    s != [] && forall i :: 0 <= i < |s| ==> IsAtomChar(s[i])
  }

  function ReplaceQuotes(s: string): string {
    seq(|s|, i requires 0 <= i < |s| => if s[i] == '"' then '\'' else s[i])
  }

  function AddressForHumans(a: Address): string {
    if a.name != "" then
      if IsAtom(a.name) then a.name + " <" + a.address + ">"
      else "\"" + ReplaceQuotes(a.name) + "\" <" + a.address + ">"
    else "<" + a.address + ">"
  }

  function JoinComma(parts: seq<string>): string {
    if |parts| == 0 then "" else if |parts| == 1 then parts[0]
    else parts[0] + ", " + JoinComma(parts[1..])
  }

  function FormatAddresses(l: seq<Address>): string {
    JoinComma(Map(l, AddressForHumans))
  }

  function NameOrAddress(a: Address): string {
    if a.name != "" then a.name else a.address
  }

  /** The text before the first separator, and the text after it if there is one. */
  function Before(s: string, sep: char): string {
    if s == [] || s[0] == sep then [] else [s[0]] + Before(s[1..], sep)
  }

  function After(s: string, sep: char): Option<string> {
    if s == [] then None else if s[0] == sep then Some(s[1..]) else After(s[1..], sep)
  }

  function GetOr(o: Option<string>, default: string): string {
    if o.Some? then o.value else default
  }

  function DateText(e: Envelope, ctx: Ctx): string {
    if e.date.Some? then e.date.value
    else if ctx.internalDate.Some? then ctx.internalDate.value
    else seq(ctx.timeFmtLen, _ => '?')
  }

  function FlagsText(ctx: Ctx): string {
    (if Seen in ctx.flags then (if Answered in ctx.flags then "r" else "")
     else if Recent in ctx.flags then "N" else "O")
    + (if Deleted in ctx.flags then "D" else "")
    + (if Flagged in ctx.flags then "!" else "")
    + (if ctx.marked then "*" else "")
  }

  // Verbs of the source format

  /**
   What a verb turns into: the escape itself, an operand with the text emitted for it,
   nothing at all, or itself literally.
   */
  datatype Verb = Escape | Operand(emitted: string, arg: Arg) | Nothing | Literal

  function Text(s: string): Outcome<Verb> {
    Ok(Operand("s", Str(s)))
  }

  function Number(n: int): Outcome<Verb> {
    Ok(Operand("d", Int(n)))
  }

  /** The sender, where one is needed. */
  function Sender(ctx: Ctx): Outcome<Address> {
    if ctx.envelope.None? || ctx.envelope.value.from == [] then Err else Ok(ctx.envelope.value.from[0])
  }

  function VerbOf(c: char, own: Address, ctx: Ctx): Outcome<Verb> {
    if c == '%' then Ok(Escape)
    else if c == 'C' then Number(ctx.msgNum)
    else if c == 'l' then Number(ctx.size)
    else if c == 'T' then Text(ctx.accountName)
    else if c == 'g' then Text(JoinComma(ctx.labels))
    else if c == 'Z' then Ok(Operand("4s", Str(FlagsText(ctx))))
    else if c == 'd' || c == 'D' then
      if ctx.envelope.None? then Fault else Text(DateText(ctx.envelope.value, ctx))
    else if c in {'a', 'f', 'F', 'n', 'u', 'v'} then SenderVerb(c, own, ctx)
    else if c in {'A', 'i', 'r', 'R', 's', 't'} then
      if ctx.envelope.None? then Err else EnvelopeVerb(c, ctx.envelope.value)
    else Ok(Literal)
  }

  function SenderVerb(c: char, own: Address, ctx: Ctx): Outcome<Verb> {
    match Sender(ctx)
    case Err => Err
    case Fault => Fault
    case Ok(addr) =>
      if c == 'a' then Text(addr.address)
      else if c == 'f' then Text(AddressForHumans(addr))
      else if c == 'F' then
        var to := ctx.envelope.value.to;
        Text(NameOrAddress(if addr.name == own.name && to != [] then to[0] else addr))
      else if c == 'n' then Text(NameOrAddress(addr))
      else if c == 'u' then Text(GetOr(After(addr.address, '@'), addr.address))
      else if addr.name != "" then Text(Before(addr.name, ' '))
      else Ok(Nothing)
  }

  function EnvelopeVerb(c: char, e: Envelope): Outcome<Verb> {
    if c == 'A' then
      if e.replyTo != [] then Text(e.replyTo[0].address)
      else if e.from != [] then Text(e.from[0].address) else Err
    else if c == 'i' then Text(e.messageId)
    else if c == 'r' then Text(FormatAddresses(e.to))
    else if c == 'R' then Text(FormatAddresses(e.cc))
    else if c == 's' then Text(e.subject)
    else if e.to != [] then Text(e.to[0].address) else Err
  }

  // Scanning

  predicate IsFlag(c: char) {
    c == '+' || c == '-' || c == '#' || c == ' ' || c == '0'
  }

  predicate IsDigit(c: char) {
    '0' <= c <= '9'
  }

  /** The first position from i on that holds no digit. */
  function SkipDigits(s: string, i: nat): (n: nat)
    requires i <= |s|
    ensures i <= n <= |s|
    decreases |s| - i
  {
    if i < |s| && IsDigit(s[i]) then SkipDigits(s, i + 1) else i
  }

  function FlagEnd(s: string, i: nat): (n: nat)
    requires i <= |s|
    ensures i <= n <= |s|
  {
    if i < |s| && IsFlag(s[i]) then i + 1 else i
  }

  /**
   The position of the verb after the '%' before position i: past at most one flag, a
   width and a precision.  The source indexes past the end in the last two cases.
   */
  function VerbAt(s: string, i: nat): (r: Outcome<nat>)
    requires i <= |s|
    ensures r.Ok? ==> i <= r.value < |s|
  {
    if FlagEnd(s, i) == |s| then Err
    else
      var d := SkipDigits(s, FlagEnd(s, i));
      if d == |s| then Fault
      else if s[d] != '.' then Ok(d)
      else if SkipDigits(s, d + 1) == |s| then Fault
      else Ok(SkipDigits(s, d + 1))
  }

  /** A literal character, or a directive with its flags and numbers. */
  datatype Piece = Lit(c: char) | Directive(prefix: string, verb: char)

  /** The piece at position i, and the position after it. */
  function Next(format: string, i: nat): (r: Outcome<(Piece, nat)>)
    requires i < |format|
    ensures r.Ok? ==> i < r.value.1 <= |format|
  {
    if format[i] != '%' then Ok((Lit(format[i]), i + 1))
    else
      match VerbAt(format, i + 1)
      case Err => Err
      case Fault => Fault
      case Ok(v) => Ok((Directive(format[i + 1..v], format[v]), v + 1))
  }

  // Compilation

  type Output = (string, seq<Arg>)

  /** What a directive's prefix and its verb turn into. */
  type Verbs = char -> Outcome<Verb>

  /** The output for one piece. */
  function Emit(p: Piece, verbs: Verbs): Outcome<Output> {
    match p
    case Lit(c) => Ok(([c], []))
    case Directive(prefix, c) =>
      match verbs(c)
      case Err => Err
      case Fault => Fault
      case Ok(Escape) => Ok(("%" + prefix + "%", []))
      case Ok(Operand(emitted, arg)) => Ok(("%" + prefix + emitted, [arg]))
      case Ok(Nothing) => Ok(("%" + prefix, []))
      case Ok(Literal) => Ok(("%" + prefix + "%" + [c], []))
  }

  /** From position i on, left to right; the first failure decides. */
  function Compile(format: string, i: nat, verbs: Verbs): Outcome<Output>
    requires i <= |format|
    decreases |format| - i
  {
    if i == |format| then Ok(("", []))
    else
      match Next(format, i)
      case Err => Err
      case Fault => Fault
      case Ok((p, n)) => Finish(Emit(p, verbs), Compile(format, n, verbs))
  }

  function Finish(emitted: Outcome<Output>, rest: Outcome<Output>): Outcome<Output> {
    match emitted
    case Err => Err
    case Fault => Fault
    case Ok((text, args)) => Then(text, args, rest)
  }

  function Then(text: string, args: seq<Arg>, rest: Outcome<Output>): Outcome<Output> {
    match rest
    case Err => Err
    case Fault => Fault
    case Ok((moreText, moreArgs)) => Ok((text + moreText, args + moreArgs))
  }

  function VerbsIn(ctx: Ctx): Verbs
    requires ctx.accountFrom.Some?
  {
    c => VerbOf(c, ctx.accountFrom.value, ctx)
  }

  function ParsedFormat(format: string, ctx: Ctx): Outcome<Output> {
    if ctx.accountFrom.None? then Err else Compile(format, 0, VerbsIn(ctx))
  }

  lemma ThenThen(a: string, x: seq<Arg>, b: string, y: seq<Arg>, r: Outcome<Output>)
    ensures Then(a, x, Then(b, y, r)) == Then(a + b, x + y, r)
  {
    if r.Ok? {
      assert a + (b + r.value.0) == a + b + r.value.0;
      assert x + (y + r.value.1) == x + y + r.value.1;
    }
  }

  lemma ThenText(done: string, args: seq<Arg>, text: string, rest: Outcome<Output>)
    ensures Then(done, args, Then(text, [], rest)) == Then(done + text, args, rest)
  {
    ThenThen(done, args, text, [], rest);
    assert args + [] == args;
  }

  lemma ThenNothing(r: Outcome<Output>)
    ensures Then("", [], r) == r
  {
    if r.Ok? {
      assert "" + r.value.0 == r.value.0;
      assert [] + r.value.1 == r.value.1;
    }
  }

  /** The next '%' from position i on (IndexByte), or the end. */
  function Percent(s: string, i: nat): (n: nat)
    requires i <= |s|
    ensures i <= n <= |s|
    ensures n < |s| ==> s[n] == '%'
    decreases |s| - i
  {
    if i == |s| || s[i] == '%' then i else Percent(s, i + 1)
  }

  /** Text up to the next '%' is copied. */
  lemma {:induction false} CompileText(format: string, i: nat, verbs: Verbs)
    requires i <= |format|
    ensures Compile(format, i, verbs)
         == Then(format[i..Percent(format, i)], [], Compile(format, Percent(format, i), verbs))
    decreases |format| - i
  {
    var n := Percent(format, i);
    if i == n {
      assert format[i..n] == "";
      ThenNothing(Compile(format, i, verbs));
    } else {
      CompileText(format, i + 1, verbs);
      ThenText([format[i]], [], format[i + 1..n], Compile(format, n, verbs));
      assert [format[i]] + format[i + 1..n] == format[i..n];
    }
  }

  lemma PassText(format: string, i: nat, done: string, args: seq<Arg>, verbs: Verbs)
    requires i <= |format|
    ensures Then(done, args, Compile(format, i, verbs))
         == Then(done + format[i..Percent(format, i)], args, Compile(format, Percent(format, i), verbs))
  {
    CompileText(format, i, verbs);
    ThenText(done, args, format[i..Percent(format, i)], Compile(format, Percent(format, i), verbs));
  }

  lemma AtEnd(format: string, done: string, args: seq<Arg>, verbs: Verbs)
    ensures Then(done, args, Compile(format, |format|, verbs)) == Ok((done, args))
  {
    assert done + "" == done && args + [] == args;
  }

  /** Skipping digits one by one; running off the end is a fault. */
  method SkipNumber(format: string, start: nat) returns (ni: nat, fault: bool)
    requires start <= |format|
    ensures ni == SkipDigits(format, start)
    ensures fault <==> ni == |format|
  {
    ni := start;
    if ni == |format| {
      return ni, true;
    }
    while IsDigit(format[ni])
      invariant start <= ni < |format| && SkipDigits(format, start) == SkipDigits(format, ni)
      decreases |format| - ni
    {
      ni := ni + 1;
      if ni == |format| {
        return ni, true;
      }
    }
    return ni, false;
  }

  method FindVerb(format: string, start: nat) returns (r: Outcome<nat>)
    requires start <= |format|
    ensures r == VerbAt(format, start)
  {
    var ni := start;
    if ni == |format| {
      return Err;
    }
    if IsFlag(format[ni]) {
      ni := ni + 1;
    }
    if ni == |format| {
      return Err;
    }
    var fault;
    ni, fault := SkipNumber(format, ni);
    if !fault && format[ni] == '.' {
      ni, fault := SkipNumber(format, ni + 1);
    }
    return if fault then Fault else Ok(ni);
  }

  /** One directive, from its '%' on, and the position after it. */
  method TranslateDirective(format: string, start: nat, verbs: Verbs) returns (emitted: Outcome<Output>, next: nat)
    requires start < |format| && format[start] == '%'
    ensures start < next <= |format|
    ensures Compile(format, start, verbs) == Finish(emitted, Compile(format, next, verbs))
  {
    next := start + 1;
    var at := FindVerb(format, next);
    match at
    case Err => emitted := Err;
    case Fault => emitted := Fault;
    case Ok(v) =>
      emitted := Emit(Directive(format[next..v], format[v]), verbs);
      next := v + 1;
  }

  method Translate(format: string, verbs: Verbs) returns (r: Outcome<Output>)
    ensures r == Compile(format, 0, verbs)
  {
    var retval, args := "", [];
    var i := 0;
    ghost var whole := Compile(format, 0, verbs);
    ThenNothing(whole);
    while i < |format|
      invariant 0 <= i <= |format|
      invariant Then(retval, args, Compile(format, i, verbs)) == whole
    {
      PassText(format, i, retval, args, verbs);
      var ni := Percent(format, i);
      retval, i := retval + format[i..ni], ni;
      if ni == |format| {
        break;
      }
      var emitted;
      emitted, i := TranslateDirective(format, ni, verbs);
      if !emitted.Ok? {
        return emitted;
      }
      ThenThen(retval, args, emitted.value.0, emitted.value.1, Compile(format, i, verbs));
      retval, args := retval + emitted.value.0, args + emitted.value.1;
    }
    AtEnd(format, retval, args, verbs);
    return Ok((retval, args));
  }

  method ParseMessageFormat(format: string, ctx: Ctx) returns (r: Outcome<Output>)
    ensures r == ParsedFormat(format, ctx)
  {
    if ctx.accountFrom.None? {
      return Err;
    }
    r := Translate(format, VerbsIn(ctx));
  }
}
