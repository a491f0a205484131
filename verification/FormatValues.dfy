/**
 What the verbs of a message-list format stand for (ParseMessageFormat in
 lib/format/format.go), said of the message itself: when a format compiles, which values
 are its arguments, and what it prints.
 */
module FormatValues {
  import opened Collections
  import opened MessageFormat
  import P = PrintfReading

  // Values

  /** What an address is called: by its name if it has one. */
  ghost predicate Called(a: Address, t: string) {
    (a.name != "" ==> t == a.name) && (a.name == "" ==> t == a.address)
  }

  predicate IsPlain(c: char) {
    'a' <= c <= 'z' || '0' <= c <= '9' || c in "+,-./" || c in "!#$%'*=?^_`{}|~ "
  }

  ghost predicate AllPlain(s: string) {
    forall i :: 0 <= i < |s| ==> IsPlain(s[i])
  }

  /** The name, quoted unless it is plain, with its own quotes made single; and the address in brackets. */
  ghost predicate HumanForm(a: Address, t: string) {
    if a.name == "" then t == "<" + a.address + ">"
    else if AllPlain(a.name) then t == a.name + " <" + a.address + ">"
    else
      exists name: string ::
        && |name| == |a.name| && t == "\"" + name + "\" <" + a.address + ">"
        && forall i :: 0 <= i < |name| ==> name[i] == if a.name[i] == '"' then '\'' else a.name[i]
  }

  /** The parts with a comma and a blank between each two. */
  function Listed(parts: seq<string>): string {
    if parts == [] then ""
    else if |parts| == 1 then parts[0]
    else Listed(parts[..|parts| - 1]) + ", " + parts[|parts| - 1]
  }

  ghost predicate HumanList(l: seq<Address>, t: string) {
    exists parts: seq<string> ::
      |parts| == |l| && (forall i :: 0 <= i < |l| ==> HumanForm(l[i], parts[i])) && t == Listed(parts)
  }

  /** What each letter of %Z says of a message. */
  predicate LetterHolds(c: char, ctx: Ctx) {
    match c
    case 'r' => Seen in ctx.flags && Answered in ctx.flags
    case 'N' => Seen !in ctx.flags && Recent in ctx.flags
    case 'O' => Seen !in ctx.flags && Recent !in ctx.flags
    case 'D' => Deleted in ctx.flags
    case '!' => Flagged in ctx.flags
    case '*' => ctx.marked
    case _ => false
  }

  /** The letters that hold, in a fixed order. */
  function Letters(ctx: Ctx): string {
    Filter("rNOD!*", c => LetterHolds(c, ctx))
  }

  /** The part of an address after its first '@', or the address if it has none. */
  ghost predicate Domain(address: string, t: string) {
    if '@' in address then exists i: nat :: i < |address| && address[i] == '@' && '@' !in address[..i] && t == address[i + 1..]
    else t == address
  }

  /** The name up to its first blank. */
  ghost predicate FirstName(name: string, t: string) {
    t <= name && ' ' !in t && (|t| < |name| ==> name[|t|] == ' ')
  }

  /** The date of the message, or else that of its arrival, or else a question mark for each character of the date format. */
  ghost predicate DateShown(e: Envelope, ctx: Ctx, t: string) {
    match (e.date, ctx.internalDate)
    case (Some(d), _) => t == d
    case (None, Some(d)) => t == d
    case (None, None) => |t| == ctx.timeFmtLen && forall i :: 0 <= i < |t| ==> t[i] == '?'
  }

  // Verbs

  const SENDER_VERBS := {'a', 'f', 'F', 'n', 'u', 'v'}
  const ENVELOPE_VERBS := {'d', 'D', 'i', 'r', 'R', 's'}
  const OTHER_VERBS := {'C', 'l', 'T', 'g', 'Z'}

  /** What the message must have for the verb to stand for something. */
  predicate Available(c: char, ctx: Ctx) {
    if c in ENVELOPE_VERBS then ctx.envelope.Some?
    else if c in SENDER_VERBS then ctx.envelope.Some? && ctx.envelope.value.from != []
    else if c == 't' then ctx.envelope.Some? && ctx.envelope.value.to != []
    else if c == 'A' then ctx.envelope.Some? && (ctx.envelope.value.replyTo != [] || ctx.envelope.value.from != [])
    else true
  }

  predicate HasMeaning(c: char) {
    c in SENDER_VERBS || c in ENVELOPE_VERBS || c in OTHER_VERBS || c == 't' || c == 'A'
  }

  predicate TakesOperand(c: char, ctx: Ctx)
    requires Available(c, ctx)
  {
    HasMeaning(c) && (c == 'v' ==> ctx.envelope.value.from[0].name != "")
  }

  ghost predicate SenderShows(c: char, own: Address, e: Envelope, a: Address, t: string) {
    match c
    case 'a' => t == a.address
    case 'f' => HumanForm(a, t)
    case 'n' => Called(a, t)
    case 'F' => if a.name == own.name && e.to != [] then Called(e.to[0], t) else Called(a, t)
    case 'u' => Domain(a.address, t)
    case 'v' => a.name != "" && FirstName(a.name, t)
    case _ => false
  }

  ghost predicate EnvelopeShows(c: char, e: Envelope, ctx: Ctx, t: string) {
    match c
    case 's' => t == e.subject
    case 'i' => t == e.messageId
    case 'r' => HumanList(e.to, t)
    case 'R' => HumanList(e.cc, t)
    case 't' => e.to != [] && t == e.to[0].address
    case 'A' =>
      if e.replyTo != [] then t == e.replyTo[0].address
      else e.from != [] && t == e.from[0].address
    case 'd' => DateShown(e, ctx, t)
    case 'D' => DateShown(e, ctx, t)
    case _ => ctx.accountFrom.Some? && e.from != [] && SenderShows(c, ctx.accountFrom.value, e, e.from[0], t)
  }

  /** The argument is what the verb asks for. */
  ghost predicate Shows(c: char, ctx: Ctx, arg: Arg) {
    match c
    case 'C' => arg == Int(ctx.msgNum)
    case 'l' => arg == Int(ctx.size)
    case 'T' => arg == Str(ctx.accountName)
    case 'g' => arg == Str(Listed(ctx.labels))
    case 'Z' => arg == Str(Letters(ctx))
    case _ => arg.Str? && ctx.envelope.Some? && EnvelopeShows(c, ctx.envelope.value, ctx, arg.s)
  }

  // Each value is the one computed

  lemma PlainIsAtom(s: string)
    requires s != ""
    ensures IsAtom(s) <==> AllPlain(s)
  {
    forall c: char ensures IsAtomChar(c) <==> IsPlain(c) {
      assert "+,-./" == ['+', ',', '-', '.', '/'];
    }
    assert forall i :: 0 <= i < |s| ==> (IsAtomChar(s[i]) <==> IsPlain(s[i]));
  }

  lemma HumanFormIs(a: Address)
    ensures forall t :: HumanForm(a, t) <==> t == AddressForHumans(a)
  {
    if a.name != "" {
      PlainIsAtom(a.name);
      if !AllPlain(a.name) {
        var name := ReplaceQuotes(a.name);
        assert |name| == |a.name| && forall i :: 0 <= i < |name| ==> name[i] == if a.name[i] == '"' then '\'' else a.name[i];
        forall n: string |
          |n| == |a.name| && forall i :: 0 <= i < |n| ==> n[i] == if a.name[i] == '"' then '\'' else a.name[i]
          ensures n == name
        {
        }
      }
    }
  }

  lemma {:induction false} ListedSnoc(part: string, parts: seq<string>)
    requires parts != []
    ensures Listed([part] + parts) == part + ", " + Listed(parts)
  {
    var n := |parts| - 1;
    assert ([part] + parts)[..n + 1] == [part] + parts[..n];
    if n > 0 {
      ListedSnoc(part, parts[..n]);
      Assoc(part + ", ", Listed(parts[..n]), ", " + parts[n]);
      Assoc(Listed(parts[..n]), ", ", parts[n]);
      Assoc(part + ", " + Listed(parts[..n]), ", ", parts[n]);
    } else {
      assert Listed([part]) == part;
    }
  }

  lemma {:induction false} ListedIsJoin(parts: seq<string>)
    ensures JoinComma(parts) == Listed(parts)
  {
    if |parts| > 1 {
      ListedIsJoin(parts[1..]);
      ListedSnoc(parts[0], parts[1..]);
      assert parts == [parts[0]] + parts[1..];
    }
  }

  lemma HumanListIs(l: seq<Address>)
    ensures forall t :: HumanList(l, t) <==> t == FormatAddresses(l)
  {
    var parts := Map(l, AddressForHumans);
    forall i | 0 <= i < |l| ensures forall t :: HumanForm(l[i], t) <==> t == parts[i] {
      HumanFormIs(l[i]);
    }
    ListedIsJoin(parts);
    forall other: seq<string> | |other| == |l| && forall i :: 0 <= i < |l| ==> HumanForm(l[i], other[i])
      ensures other == parts
    {
    }
  }

  function Kept(c: char, p: char -> bool): string {
    if p(c) then [c] else ""
  }

  lemma FilterSix(a: char, b: char, c: char, d: char, e: char, f: char, p: char -> bool)
    ensures Filter([a, b, c, d, e, f], p) ==
      Kept(a, p) + (Kept(b, p) + (Kept(c, p) + (Kept(d, p) + (Kept(e, p) + Kept(f, p)))))
  {
    FilterCons(f, [], p);
    assert [f] + [] == [f] && Kept(f, p) + [] == Kept(f, p);
    FilterCons(e, [f], p);
    assert [e] + [f] == [e, f];
    FilterCons(d, [e, f], p);
    assert [d] + [e, f] == [d, e, f];
    FilterCons(c, [d, e, f], p);
    assert [c] + [d, e, f] == [c, d, e, f];
    FilterCons(b, [c, d, e, f], p);
    assert [b] + [c, d, e, f] == [b, c, d, e, f];
    FilterCons(a, [b, c, d, e, f], p);
    assert [a] + [b, c, d, e, f] == [a, b, c, d, e, f];
  }

  lemma LettersAre(ctx: Ctx)
    ensures Letters(ctx) == FlagsText(ctx)
  {
    var p := (c: char) => LetterHolds(c, ctx);
    FilterSix('r', 'N', 'O', 'D', '!', '*', p);
    assert "rNOD!*" == ['r', 'N', 'O', 'D', '!', '*'];
    var d, f, m := Kept('D', p), Kept('!', p), Kept('*', p);
    var read := if Seen in ctx.flags then (if Answered in ctx.flags then "r" else "")
                else if Recent in ctx.flags then "N" else "O";
    OneOfThree(Kept('r', p), Kept('N', p), Kept('O', p), d + (f + m));
    assert Kept('r', p) + Kept('N', p) + Kept('O', p) == read;
    Assoc(read + d, f, m);
    Assoc(read, d, f + m);
  }

  lemma OneOfThree(a: string, b: string, c: string, rest: string)
    ensures a + (b + (c + rest)) == a + b + c + rest
  {
  }

  lemma {:induction false} AfterIs(s: string, c: char)
    ensures After(s, c).None? <==> c !in s
    ensures After(s, c).Some? ==>
      exists i: nat :: i < |s| && s[i] == c && c !in s[..i] && After(s, c).value == s[i + 1..]
  {
    if s != [] && s[0] == c {
      assert c !in s[..0] && After(s, c).value == s[0 + 1..];
    } else if s != [] {
      AfterIs(s[1..], c);
      if After(s[1..], c).Some? {
        var i: nat :| i < |s[1..]| && s[1..][i] == c && c !in s[1..][..i] && After(s[1..], c).value == s[1..][i + 1..];
        assert s[..i + 1] == [s[0]] + s[1..][..i];
        assert s[i + 1] == c && s[i + 1 + 1..] == s[1..][i + 1..];
      }
    }
  }

  lemma FirstIsFirst(s: string, c: char, i: nat, j: nat)
    requires i < |s| && j < |s| && s[i] == c && s[j] == c && c !in s[..i] && c !in s[..j]
    ensures i == j
  {
    if i < j {
      InPrefix(s, i, j);
    } else if j < i {
      InPrefix(s, j, i);
    }
  }

  lemma DomainIs(address: string)
    ensures forall t :: Domain(address, t) <==> t == GetOr(After(address, '@'), address)
  {
    AfterIs(address, '@');
    forall i: nat, j: nat |
      && i < |address| && address[i] == '@' && '@' !in address[..i]
      && j < |address| && address[j] == '@' && '@' !in address[..j]
      ensures i == j
    {
      FirstIsFirst(address, '@', i, j);
    }
  }

  lemma {:induction false} BeforeIs(s: string, c: char)
    ensures Before(s, c) <= s && c !in Before(s, c)
    ensures |Before(s, c)| < |s| ==> s[|Before(s, c)|] == c
  {
    if s != [] && s[0] != c {
      BeforeIs(s[1..], c);
    }
  }

  lemma FirstNameIs(name: string)
    ensures forall t :: FirstName(name, t) <==> t == Before(name, ' ')
  {
    BeforeIs(name, ' ');
    var b := Before(name, ' ');
    forall t | FirstName(name, t) ensures t == b {
      assert t == name[..|t|] && b == name[..|b|];
    }
  }

  lemma DateIs(e: Envelope, ctx: Ctx)
    ensures forall t :: DateShown(e, ctx, t) <==> t == DateText(e, ctx)
  {
  }

  lemma SenderValue(c: char, own: Address, ctx: Ctx)
    requires c in SENDER_VERBS && Available(c, ctx)
    ensures var v := SenderVerb(c, own, ctx); var e := ctx.envelope.value;
      if c == 'v' && e.from[0].name == "" then v == Ok(Nothing)
      else
        && v.Ok? && v.value.Operand? && v.value.arg.Str?
        && forall t :: SenderShows(c, own, e, e.from[0], t) <==> t == v.value.arg.s
  {
    var a := ctx.envelope.value.from[0];
    HumanFormIs(a);
    DomainIs(a.address);
    FirstNameIs(a.name);
  }

  lemma EnvelopeValue(c: char, ctx: Ctx)
    requires c in {'A', 'i', 'r', 'R', 's', 't'} && Available(c, ctx)
    ensures var v := EnvelopeVerb(c, ctx.envelope.value);
      && v.Ok? && v.value.Operand? && v.value.arg.Str?
      && forall t :: EnvelopeShows(c, ctx.envelope.value, ctx, t) <==> t == v.value.arg.s
  {
    HumanListIs(ctx.envelope.value.to);
    HumanListIs(ctx.envelope.value.cc);
  }

  lemma TextValue(c: char, ctx: Ctx, t: string)
    requires ctx.envelope.Some? && c !in OTHER_VERBS
    requires forall s :: EnvelopeShows(c, ctx.envelope.value, ctx, s) <==> s == t
    ensures forall arg :: Shows(c, ctx, arg) <==> arg == Str(t)
  {
  }

  /**
   A verb's outcome.  It fails if and only if the message has not what it needs, and as a
   fault for the two dates; otherwise it is an escaped '%', an operand that shows what the
   verb stands for and can be nothing else, nothing for a nameless sender's %v, or itself.
   */
  ghost predicate IsMeant(c: char, ctx: Ctx, v: Outcome<Verb>) {
    && (v.Ok? <==> Available(c, ctx))
    && (v.Fault? <==> !Available(c, ctx) && (c == 'd' || c == 'D'))
    && (v.Ok? ==>
          && (v.value.Escape? <==> c == '%')
          && (v.value.Operand? <==> TakesOperand(c, ctx))
          && (v.value.Nothing? <==> c == 'v' && ctx.envelope.value.from[0].name == "")
          && (v.value.Literal? <==> c != '%' && !HasMeaning(c))
          && (v.value.Operand? ==> forall arg :: Shows(c, ctx, arg) <==> arg == v.value.arg))
  }

  lemma OtherMeans(c: char, own: Address, ctx: Ctx)
    requires c in {'C', 'l', 'T'}
    ensures IsMeant(c, ctx, VerbOf(c, own, ctx))
  {
  }

  lemma LabelsMean(own: Address, ctx: Ctx)
    ensures IsMeant('g', ctx, VerbOf('g', own, ctx))
  {
    ListedIsJoin(ctx.labels);
  }

  lemma FlagsMean(own: Address, ctx: Ctx)
    ensures IsMeant('Z', ctx, VerbOf('Z', own, ctx))
  {
    LettersAre(ctx);
    assert VerbOf('Z', own, ctx) == Ok(Operand("4s", Str(Letters(ctx))));
  }

  lemma SenderMeans(c: char, ctx: Ctx)
    requires c in SENDER_VERBS && ctx.accountFrom.Some?
    ensures IsMeant(c, ctx, SenderVerb(c, ctx.accountFrom.value, ctx))
  {
    if Available(c, ctx) {
      SenderValue(c, ctx.accountFrom.value, ctx);
      if TakesOperand(c, ctx) {
        TextValue(c, ctx, SenderVerb(c, ctx.accountFrom.value, ctx).value.arg.s);
      }
    }
  }

  lemma EnvelopeMeans(c: char, own: Address, ctx: Ctx)
    requires c in {'A', 'i', 'r', 'R', 's', 't'}
    ensures IsMeant(c, ctx, VerbOf(c, own, ctx))
  {
    if Available(c, ctx) {
      EnvelopeValue(c, ctx);
      TextValue(c, ctx, EnvelopeVerb(c, ctx.envelope.value).value.arg.s);
    }
  }

  lemma DateMeans(c: char, own: Address, ctx: Ctx)
    requires c == 'd' || c == 'D'
    ensures IsMeant(c, ctx, VerbOf(c, own, ctx))
  {
    if ctx.envelope.Some? {
      DateIs(ctx.envelope.value, ctx);
      TextValue(c, ctx, DateText(ctx.envelope.value, ctx));
    }
  }

  /** Every verb means what it should. */
  lemma VerbMeans(c: char, ctx: Ctx)
    requires ctx.accountFrom.Some?
    ensures IsMeant(c, ctx, VerbOf(c, ctx.accountFrom.value, ctx))
  {
    var own := ctx.accountFrom.value;
    if c == 'Z' {
      FlagsMean(own, ctx);
    } else if c == 'g' {
      LabelsMean(own, ctx);
    } else if c in OTHER_VERBS {
      OtherMeans(c, own, ctx);
    } else if c in SENDER_VERBS {
      SenderMeans(c, ctx);
      assert VerbOf(c, own, ctx) == SenderVerb(c, own, ctx);
    } else if c in {'A', 'i', 'r', 'R', 's', 't'} {
      EnvelopeMeans(c, own, ctx);
    } else if c == 'd' || c == 'D' {
      DateMeans(c, own, ctx);
    }
  }

  // Formats

  /** Every directive of the format is complete. */
  predicate Scans(format: string, i: nat)
    requires i <= |format|
    decreases |format| - i
  {
    i < |format| ==>
      match Next(format, i)
      case Ok((_, n)) => Scans(format, n)
      case _ => false
  }

  /** The verbs of the directives in order. */
  function DirectiveVerbs(format: string, i: nat): seq<char>
    requires i <= |format| && Scans(format, i)
    decreases |format| - i
  {
    if i == |format| then []
    else
      var (p, n) := Next(format, i).value;
      (if p.Directive? then [p.verb] else []) + DirectiveVerbs(format, n)
  }

  ghost predicate AllAvailable(verbs: seq<char>, ctx: Ctx) {
    forall c :: c in verbs ==> Available(c, ctx)
  }

  lemma {:induction false} CompilesFrom(format: string, i: nat, ctx: Ctx)
    requires i <= |format| && ctx.accountFrom.Some?
    ensures Compile(format, i, VerbsIn(ctx)).Ok?
       <==> Scans(format, i) && AllAvailable(DirectiveVerbs(format, i), ctx)
    decreases |format| - i
  {
    if i < |format| && Next(format, i).Ok? {
      var (p, n) := Next(format, i).value;
      CompilesFrom(format, n, ctx);
      if p.Directive? {
        VerbMeans(p.verb, ctx);
        if Scans(format, n) {
          assert DirectiveVerbs(format, i) == [p.verb] + DirectiveVerbs(format, n);
          assert p.verb in DirectiveVerbs(format, i);
        }
      } else if Scans(format, n) {
        assert DirectiveVerbs(format, i) == [] + DirectiveVerbs(format, n) == DirectiveVerbs(format, n);
      }
    }
  }

  /** A format compiles exactly if its directives are complete and the message has what they need. */
  lemma CompilesIff(format: string, ctx: Ctx)
    ensures ParsedFormat(format, ctx).Ok?
       <==> ctx.accountFrom.Some? && Scans(format, 0) && AllAvailable(DirectiveVerbs(format, 0), ctx)
  {
    if ctx.accountFrom.Some? {
      CompilesFrom(format, 0, ctx);
    }
  }

  /** The verbs that take an operand. */
  function Operands(verbs: seq<char>, ctx: Ctx): seq<char>
    requires AllAvailable(verbs, ctx)
  {
    if verbs == [] then []
    else
      assert verbs[0] in verbs;
      (if TakesOperand(verbs[0], ctx) then [verbs[0]] else []) + Operands(verbs[1..], ctx)
  }

  /** One argument for each verb, and it is what the verb asks for. */
  ghost predicate AllShown(verbs: seq<char>, ctx: Ctx, args: seq<Arg>) {
    |args| == |verbs| && forall k :: 0 <= k < |verbs| ==> Shows(verbs[k], ctx, args[k])
  }

  lemma ShownCons(c: char, verbs: seq<char>, ctx: Ctx, arg: Arg, args: seq<Arg>)
    requires Shows(c, ctx, arg) && AllShown(verbs, ctx, args)
    ensures AllShown([c] + verbs, ctx, [arg] + args)
  {
  }

  lemma OperandsCons(c: char, verbs: seq<char>, ctx: Ctx)
    requires Available(c, ctx) && AllAvailable(verbs, ctx)
    ensures AllAvailable([c] + verbs, ctx)
    ensures Operands([c] + verbs, ctx) == (if TakesOperand(c, ctx) then [c] else []) + Operands(verbs, ctx)
  {
    assert ([c] + verbs)[1..] == verbs;
  }

  lemma {:induction false} ArgumentsFrom(format: string, i: nat, ctx: Ctx)
    requires i <= |format| && ctx.accountFrom.Some? && Compile(format, i, VerbsIn(ctx)).Ok?
    ensures Scans(format, i) && AllAvailable(DirectiveVerbs(format, i), ctx)
    ensures AllShown(Operands(DirectiveVerbs(format, i), ctx), ctx, Compile(format, i, VerbsIn(ctx)).value.1)
    decreases |format| - i
  {
    CompilesFrom(format, i, ctx);
    if i < |format| {
      var (p, n) := Next(format, i).value;
      var rest := Compile(format, n, VerbsIn(ctx)).value.1;
      ArgumentsFrom(format, n, ctx);
      var verbs := DirectiveVerbs(format, n);
      if p.Directive? {
        VerbMeans(p.verb, ctx);
        OperandsCons(p.verb, verbs, ctx);
        if TakesOperand(p.verb, ctx) {
          ShownCons(p.verb, Operands(verbs, ctx), ctx, VerbOf(p.verb, ctx.accountFrom.value, ctx).value.arg, rest);
        } else {
          assert [] + rest == rest && [] + Operands(verbs, ctx) == Operands(verbs, ctx);
        }
      } else {
        assert [] + rest == rest && [] + verbs == verbs;
      }
    }
  }

  /**
   The arguments of a compiled format are, in order, the values its directives ask for:
   one for each that takes an operand, and no others.
   */
  lemma ArgumentsAreValues(format: string, ctx: Ctx)
    requires ParsedFormat(format, ctx).Ok?
    ensures Scans(format, 0) && AllAvailable(DirectiveVerbs(format, 0), ctx)
    ensures AllShown(Operands(DirectiveVerbs(format, 0), ctx), ctx, ParsedFormat(format, ctx).value.1)
  {
    ArgumentsFrom(format, 0, ctx);
  }

  // Scanning

  ghost predicate AreDigits(s: string, from: nat, to: nat)
    requires from <= to <= |s|
  {
    forall k :: from <= k < to ==> '0' <= s[k] <= '9'
  }

  /** At most one flag, digits, and perhaps a point and more digits, cut at b. */
  ghost predicate IsCut(p: string, a: nat, b: nat) {
    && a <= b <= |p| && a <= 1
    && (a == 1 ==> p[0] in {'+', '-', '#', ' ', '0'})
    && AreDigits(p, a, b)
    && (b < |p| ==> p[b] == '.' && AreDigits(p, b + 1, |p|))
  }

  ghost predicate IsPrefix(p: string) {
    exists a: nat, b: nat :: IsCut(p, a, b)
  }

  /** The end of the flag, the width and the precision. */
  function PrefixEnd(s: string, i: nat): (n: nat)
    requires i <= |s|
    ensures i <= n <= |s|
  {
    P.NumbersEnd(s, FlagEnd(s, i))
  }

  lemma DigitsEnd(s: string, i: nat, n: nat)
    requires i <= n <= |s| && AreDigits(s, i, n)
    ensures n <= SkipDigits(s, i)
    ensures n < |s| && !IsDigit(s[n]) ==> SkipDigits(s, i) == n
  {
    P.SkipDigitsIs(s, i, SkipDigits(s, i));
    P.SkipDigitsIs(s, i, n);
  }

  lemma CutWithin(s: string, i: nat, n: nat, a: nat, b: nat)
    requires i <= n <= |s| && IsCut(s[i..n], a, b)
    ensures n <= PrefixEnd(s, i)
  {
    var p := s[i..n];
    var f := FlagEnd(s, i);
    assert forall k :: 0 <= k < |p| ==> p[k] == s[i + k];
    assert f <= i + b || b == 0;
    if b == 0 {
      assert n > i ==> s[i] == '.';
    } else {
      assert a <= f - i <= 1 && f <= i + b;
      forall k | f <= k < i + b ensures '0' <= s[k] <= '9' {
        assert s[k] == p[k - i];
      }
      DigitsEnd(s, f, i + b);
    }
    if b < |p| {
      assert s[i + b] == '.';
      DigitsEnd(s, f, i + b);
      forall k | i + b + 1 <= k < n ensures '0' <= s[k] <= '9' {
        assert s[k] == p[k - i];
      }
      DigitsEnd(s, i + b + 1, n);
    }
  }

  lemma PrefixCut(s: string, i: nat, n: nat)
    requires i <= |s| && i <= n <= PrefixEnd(s, i)
    ensures IsPrefix(s[i..n])
  {
    var f := FlagEnd(s, i);
    var d := SkipDigits(s, f);
    var a := if f <= n then f - i else 0;
    var b := if d <= n then d - i else n - i;
    P.SkipDigitsIs(s, f, d);
    DigitsWithin(s, i, n, i + a, i + b);
    if d < n {
      P.SkipDigitsIs(s, d + 1, SkipDigits(s, d + 1));
      DigitsWithin(s, i, n, d + 1, n);
    }
    assert IsCut(s[i..n], a, b);
  }

  lemma DigitsWithin(s: string, i: nat, n: nat, from: nat, to: nat)
    requires i <= from <= to <= n <= |s| && AreDigits(s, from, to)
    ensures AreDigits(s[i..n], from - i, to - i)
  {
  }

  /**
   A directive's verb stands behind the longest piece of text that is a flag, a width and
   a precision; without one the scan fails, as an error if at most a flag is left.
   */
  lemma VerbBehindPrefix(s: string, i: nat)
    requires i <= |s|
    ensures forall v :: VerbAt(s, i) == Ok(v) <==>
      i <= v < |s| && IsPrefix(s[i..v]) && !IsPrefix(s[i..v + 1])
    ensures !VerbAt(s, i).Ok? <==> IsPrefix(s[i..])
    ensures VerbAt(s, i).Err? <==> s[i..] == "" || (|s[i..]| == 1 && s[i] in {'+', '-', '#', ' ', '0'})
  {
    assert s[i..|s|] == s[i..];
    forall n | i <= n <= |s| ensures IsPrefix(s[i..n]) <==> n <= PrefixEnd(s, i) {
      if IsPrefix(s[i..n]) {
        var a: nat, b: nat :| IsCut(s[i..n], a, b);
        CutWithin(s, i, n, a, b);
      } else if n <= PrefixEnd(s, i) {
        PrefixCut(s, i, n);
      }
    }
    VerbAtIs(s, i);
  }

  lemma VerbAtIs(s: string, i: nat)
    requires i <= |s|
    ensures VerbAt(s, i).Ok? <==> PrefixEnd(s, i) < |s|
    ensures VerbAt(s, i).Ok? ==> VerbAt(s, i).value == PrefixEnd(s, i)
  {
  }

  // Printing

  predicate IsFirstName(p: Piece) {
    p.Directive? && p.verb == 'v'
  }

  /** A %Z with a width or a precision, or a verb without meaning with a prefix. */
  predicate IsUneven(p: Piece) {
    p.Directive? &&
    if p.verb == 'Z' then P.Sized(p.prefix) else p.verb != '%' && !HasMeaning(p.verb) && p.prefix != ""
  }

  predicate AnyPiece(format: string, i: nat, q: Piece -> bool)
    requires i <= |format| && Scans(format, i)
    decreases |format| - i
  {
    i < |format| &&
    var (p, n) := Next(format, i).value;
    q(p) || AnyPiece(format, n, q)
  }

  /** What a piece of a format should print as, when operands are printed by pr. */
  ghost predicate PieceShows(p: Piece, ctx: Ctx, pr: P.Printer, t: string) {
    match p
    case Lit(c) => t == [c]
    case Directive(prefix, c) =>
      if c == '%' then t == "%"
      else if !HasMeaning(c) then t == "%" + prefix + [c]
      else
        && Available(c, ctx)
        && if !TakesOperand(c, ctx) then t == ""
           else
             exists arg ::
               Shows(c, ctx, arg) &&
               t == pr.operand(
                 if c == 'Z' && !P.Sized(prefix) then prefix + "4" else prefix, if arg.Int? then 'd' else 's', arg)
  }

  /** What the format from i on should print as. */
  ghost predicate Prints(format: string, i: nat, ctx: Ctx, pr: P.Printer, t: string)
    requires i <= |format| && Scans(format, i)
    decreases |format| - i
  {
    if i == |format| then t == ""
    else
      var (p, n) := Next(format, i).value;
      exists first, rest: string ::
        t == first + rest && PieceShows(p, ctx, pr, first) && Prints(format, n, ctx, pr, rest)
  }

  lemma PieceIs(p: Piece, ctx: Ctx, pr: P.Printer)
    requires ctx.accountFrom.Some? && Emit(p, VerbsIn(ctx)).Ok?
    ensures forall t :: PieceShows(p, ctx, pr, t) <==> t == P.Interpreted(P.Resolved(p, VerbsIn(ctx)), pr)
    ensures P.Awkward(P.Resolved(p, VerbsIn(ctx))) <==> IsUneven(p)
    ensures P.IsVerb(P.Resolved(p, VerbsIn(ctx)), 'v') <==> IsFirstName(p)
  {
    if p.Directive? {
      VerbMeans(p.verb, ctx);
      assert VerbsIn(ctx)(p.verb) == VerbOf(p.verb, ctx.accountFrom.value, ctx);
    }
  }

  lemma HasAwkwardCons(it: P.Item, rest: seq<P.Item>)
    ensures P.HasAwkward([it] + rest) <==> P.Awkward(it) || P.HasAwkward(rest)
  {
    var all := [it] + rest;
    assert all[0] == it;
    if P.HasAwkward(rest) {
      var i :| 0 <= i < |rest| && P.Awkward(rest[i]);
      assert all[i + 1] == rest[i];
    }
  }

  lemma {:induction false} PrintsFrom(format: string, i: nat, ctx: Ctx, pr: P.Printer)
    requires i <= |format| && ctx.accountFrom.Some? && Compile(format, i, VerbsIn(ctx)).Ok?
    ensures Scans(format, i)
    ensures var items := P.Items(format, i, VerbsIn(ctx));
      && (forall t :: Prints(format, i, ctx, pr, t) <==> t == P.Interpretation(items, pr))
      && (P.HasAwkward(items) <==> AnyPiece(format, i, IsUneven))
      && (P.HasVerb(items, 'v') <==> AnyPiece(format, i, IsFirstName))
    decreases |format| - i
  {
    CompilesFrom(format, i, ctx);
    if i < |format| {
      var (p, n) := Next(format, i).value;
      PrintsFrom(format, n, ctx, pr);
      PieceIs(p, ctx, pr);
      var it, rest := P.Resolved(p, VerbsIn(ctx)), P.Items(format, n, VerbsIn(ctx));
      assert P.Items(format, i, VerbsIn(ctx)) == [it] + rest;
      HasAwkwardCons(it, rest);
      P.HasCons(it, rest);
      assert ([it] + rest)[1..] == rest;
      assert P.Interpretation([it] + rest, pr) == P.Interpreted(it, pr) + P.Interpretation(rest, pr);
    }
  }

  /**
   Printing a compiled format gives the text of the source format with every directive
   replaced by what it asks for, however operands are printed, exactly if no %Z has a width
   or a precision and no verb without meaning has a prefix.  A %v needs a sender with a name.
   */
  lemma PrintsAsAsked(format: string, ctx: Ctx)
    requires ParsedFormat(format, ctx).Ok? && Scans(format, 0)
    requires AnyPiece(format, 0, IsFirstName) ==>
      ctx.envelope.Some? && ctx.envelope.value.from != [] && ctx.envelope.value.from[0].name != ""
    ensures var (out, args) := ParsedFormat(format, ctx).value;
      (forall pr: P.Printer :: Prints(format, 0, ctx, pr, P.Render(P.Read(out), args, pr)))
      <==> !AnyPiece(format, 0, IsUneven)
  {
    var (out, args) := ParsedFormat(format, ctx).value;
    forall pr: P.Printer
      ensures forall t :: Prints(format, 0, ctx, pr, t) <==> t == P.Interpretation(P.Meaning(format, ctx), pr)
    {
      PrintsFrom(format, 0, ctx, pr);
    }
    PrintsFrom(format, 0, ctx, P.Dropping(0));
    P.RendersAsWritten(format, ctx);
  }
}
