/**
 What Go's printf makes of a compiled message-list format (ParseMessageFormat in
 lib/format/format.go): the output is read by printf's grammar and rendered with the
 compiled arguments, and both are compared with the source format taken directive by
 directive.
 */
module PrintfReading {
  import opened Collections
  import opened MessageFormat

  // The grammar of printf

  /**
   A character, a "%%" with whatever stands between the two, a directive that takes an
   operand, or a '%' that runs into the end.  Widths and indices taken from the argument
   list ('*' and '[') end the reading.
   */
  datatype Token =
    | Char(c: char)
    | Percent(prefix: string)
    | Operand(prefix: string, verb: char)
    | NoVerb(prefix: string)
    | Unread(text: string)

  /** Past any number of flags, unlike the source format, which takes one at most. */
  function FlagsEnd(s: string, i: nat): (n: nat)
    requires i <= |s|
    ensures i <= n <= |s|
    decreases |s| - i
  {
    if i < |s| && IsFlag(s[i]) then FlagsEnd(s, i + 1) else i
  }

  function NumbersEnd(s: string, i: nat): (n: nat)
    requires i <= |s|
    ensures i <= n <= |s|
  {
    var d := SkipDigits(s, i);
    if d < |s| && s[d] == '.' then SkipDigits(s, d + 1) else d
  }

  function Read(s: string): seq<Token>
    decreases |s|
  {
    if s == [] then []
    else if s[0] != '%' then [Char(s[0])] + Read(s[1..])
    else
      var v := NumbersEnd(s, FlagsEnd(s, 1));
      var prefix := s[1..v];
      if v == |s| then [NoVerb(prefix)]
      else if s[v] == '%' then [Percent(prefix)] + Read(s[v + 1..])
      else if s[v] == '*' || s[v] == '[' then [Unread(s)]
      else [Token.Operand(prefix, s[v])] + Read(s[v + 1..])
  }

  function TokenText(t: Token): string {
    match t
    case Char(c) => [c]
    case Percent(prefix) => "%" + prefix + "%"
    case Operand(prefix, verb) => "%" + prefix + [verb]
    case NoVerb(prefix) => "%" + prefix
    case Unread(text) => text
  }

  function TokensText(ts: seq<Token>): string {
    if ts == [] then "" else TokenText(ts[0]) + TokensText(ts[1..])
  }

  lemma TokensTextCons(t: Token, ts: seq<Token>)
    ensures TokensText([t] + ts) == TokenText(t) + TokensText(ts)
  {
    assert ([t] + ts)[1..] == ts;
  }

  lemma AroundVerb(s: string, v: nat)
    requires 1 <= v < |s| && s[0] == '%'
    ensures s == "%" + s[1..v] + [s[v]] + s[v + 1..]
  {
  }

  lemma {:induction false} ReadIsLossless(s: string)
    ensures TokensText(Read(s)) == s
    decreases |s|
  {
    if s != [] && s[0] != '%' {
      ReadIsLossless(s[1..]);
      TokensTextCons(Char(s[0]), Read(s[1..]));
    } else if s != [] {
      var v := NumbersEnd(s, FlagsEnd(s, 1));
      if v == |s| {
        TokensTextCons(NoVerb(s[1..v]), []);
        assert "%" + s[1..] == s;
      } else if s[v] == '*' || s[v] == '[' {
        TokensTextCons(Unread(s), []);
      } else {
        ReadIsLossless(s[v + 1..]);
        AroundVerb(s, v);
        TokensTextCons(Read(s)[0], Read(s[v + 1..]));
      }
    }
  }

  // The source format, resolved

  /** A literal character, or a directive with what its verb turns into. */
  datatype Item = Copy(c: char) | Directed(prefix: string, c: char, verb: Verb)

  function Items(format: string, i: nat, verbs: Verbs): seq<Item>
    requires i <= |format| && Compile(format, i, verbs).Ok?
    decreases |format| - i
  {
    if i == |format| then []
    else
      var (p, n) := Next(format, i).value;
      [Resolved(p, verbs)] + Items(format, n, verbs)
  }

  function Resolved(p: Piece, verbs: Verbs): Item
    requires Emit(p, verbs).Ok?
  {
    match p
    case Lit(c) => Copy(c)
    case Directive(prefix, c) => Directed(prefix, c, verbs(c).value)
  }

  function ItemText(it: Item): string {
    match it
    case Copy(c) => [c]
    case Directed(prefix, c, Escape) => "%" + prefix + "%"
    case Directed(prefix, c, Operand(emitted, arg)) => "%" + prefix + emitted
    case Directed(prefix, c, Nothing) => "%" + prefix
    case Directed(prefix, c, Literal) => "%" + prefix + "%" + [c]
  }

  function ItemArgs(it: Item): seq<Arg> {
    if it.Directed? && it.verb.Operand? then [it.verb.arg] else []
  }

  function Texts(items: seq<Item>): string {
    if items == [] then "" else ItemText(items[0]) + Texts(items[1..])
  }

  function Args(items: seq<Item>): seq<Arg> {
    if items == [] then [] else ItemArgs(items[0]) + Args(items[1..])
  }

  lemma {:induction false} CompileIsItems(format: string, i: nat, verbs: Verbs)
    requires i <= |format| && Compile(format, i, verbs).Ok?
    ensures Compile(format, i, verbs) == Ok((Texts(Items(format, i, verbs)), Args(Items(format, i, verbs))))
    decreases |format| - i
  {
    if i < |format| {
      var (p, n) := Next(format, i).value;
      CompileIsItems(format, n, verbs);
      assert Emit(p, verbs) == Ok((ItemText(Resolved(p, verbs)), ItemArgs(Resolved(p, verbs))));
    }
  }

  // Prefixes

  /** At most one flag, a width and a precision. */
  predicate IsSpec(p: string) {
    NumbersEnd(p, FlagEnd(p, 0)) == |p|
  }

  /** A digit, '.' or flag would be read as part of the prefix. */
  predicate Ends(c: char) {
    !IsDigit(c) && !IsFlag(c) && c != '.'
  }

  lemma {:induction false} SkipDigitsIs(s: string, i: nat, n: nat)
    requires i <= n <= |s|
    ensures SkipDigits(s, i) == n
       <==> (forall k :: i <= k < n ==> IsDigit(s[k])) && (n < |s| ==> !IsDigit(s[n]))
    decreases |s| - i
  {
    if i < n && IsDigit(s[i]) {
      SkipDigitsIs(s, i + 1, n);
    }
  }

  /** The digits of s[a..b], not followed by another. */
  lemma SkipDigitsWithin(s: string, a: nat, b: nat, i: nat)
    requires a <= b <= |s| && i <= b - a && (b < |s| ==> !IsDigit(s[b]))
    ensures SkipDigits(s, a + i) == a + SkipDigits(s[a..b], i)
  {
    var n := SkipDigits(s[a..b], i);
    SkipDigitsIs(s[a..b], i, n);
    forall k | a + i <= k < a + n ensures IsDigit(s[k]) {
      assert s[k] == s[a..b][k - a];
    }
    SkipDigitsIs(s, a + i, a + n);
  }

  lemma NumbersEndWithin(s: string, a: nat, b: nat, i: nat)
    requires a <= b <= |s| && i <= b - a && (b < |s| ==> Ends(s[b]))
    ensures NumbersEnd(s, a + i) == a + NumbersEnd(s[a..b], i)
  {
    SkipDigitsWithin(s, a, b, i);
    var d := SkipDigits(s[a..b], i);
    if d < b - a && s[a + d] == '.' {
      SkipDigitsWithin(s, a, b, d + 1);
    }
  }

  /** Zeros after a flag are flags to printf and digits to the source: the numbers end alike. */
  lemma {:induction false} FlagsAreHarmless(s: string, i: nat)
    requires i <= |s| && (NumbersEnd(s, i) < |s| ==> Ends(s[NumbersEnd(s, i)]))
    ensures NumbersEnd(s, FlagsEnd(s, i)) == NumbersEnd(s, i)
    decreases |s| - i
  {
    if i < |s| && IsFlag(s[i]) {
      assert s[i] == '0';
      FlagsAreHarmless(s, i + 1);
    }
  }

  lemma SpecEnds(s: string, a: nat, v: nat)
    requires a <= v <= |s| && IsSpec(s[a..v]) && (v < |s| ==> Ends(s[v]))
    ensures NumbersEnd(s, FlagsEnd(s, a)) == v
  {
    var p := s[a..v];
    assert FlagEnd(s, a) == a + FlagEnd(p, 0);
    NumbersEndWithin(s, a, v, FlagEnd(p, 0));
    FlagsAreHarmless(s, FlagEnd(s, a));
  }

  /** What the source takes for a prefix is one. */
  lemma PrefixIsSpec(format: string, i: nat)
    requires i <= |format| && VerbAt(format, i).Ok?
    ensures IsSpec(format[i..VerbAt(format, i).value])
  {
    var v := VerbAt(format, i).value;
    var p := format[i..v];
    var f := FlagEnd(format, i);
    assert f <= SkipDigits(format, f) <= v;
    assert FlagEnd(p, 0) == f - i;
    var d := SkipDigits(format, f);
    assert forall k :: 0 <= k < |p| ==> p[k] == format[i + k];
    SkipDigitsIs(format, f, d);
    SkipDigitsIs(p, f - i, d - i);
    assert SkipDigits(p, f - i) == d - i;
    if d < v {
      SkipDigitsIs(format, d + 1, v);
      SkipDigitsIs(p, d + 1 - i, v - i);
      assert p[d - i] == '.' && SkipDigits(p, d + 1 - i) == v - i;
    }
  }

  lemma MoreDigits(p: string)
    requires IsSpec(p)
    ensures IsSpec(p + "4")
  {
    var q := p + "4";
    var f := FlagEnd(p, 0);
    assert FlagEnd(q, 0) == f;
    var d := SkipDigits(p, f);
    SkipDigitsIs(p, f, d);
    if d == |p| {
      SkipDigitsIs(q, f, |q|);
    } else {
      SkipDigitsIs(q, f, d);
      SkipDigitsIs(p, d + 1, |p|);
      SkipDigitsIs(q, d + 1, |q|);
    }
  }

  // Reading the output

  /** The forms a verb takes: 's' for text, 'd' for a number, '4s' for the flags. */
  predicate Proper(it: Item) {
    match it
    case Copy(c) => c != '%'
    case Directed(prefix, c, verb) =>
      && IsSpec(prefix)
      && (verb.Literal? ==> c != '%')
      && (verb.Operand? ==> verb.emitted == (if c == 'Z' then "4s" else if verb.arg.Int? then "d" else "s"))
      && (verb.Operand? && c == 'Z' ==> verb.arg.Str?)
  }

  /** The tokens an item should be read as. */
  function Wanted(it: Item): seq<Token>
    requires Proper(it)
  {
    match it
    case Copy(c) => [Char(c)]
    case Directed(prefix, c, Escape) => [Percent(prefix)]
    case Directed(prefix, c, Operand(emitted, arg)) =>
      [Token.Operand(prefix + emitted[..|emitted| - 1], emitted[|emitted| - 1])]
    case Directed(prefix, c, Nothing) => []
    case Directed(prefix, c, Literal) => [Percent(prefix), Char(c)]
  }

  ghost predicate AllProper(items: seq<Item>) {
    forall i :: 0 <= i < |items| ==> Proper(items[i])
  }

  function AllWanted(items: seq<Item>): seq<Token>
    requires AllProper(items)
  {
    if items == [] then [] else Wanted(items[0]) + AllWanted(items[1..])
  }

  lemma VerbsAreProper(c: char, own: Address, ctx: Ctx, prefix: string)
    requires VerbOf(c, own, ctx).Ok? && IsSpec(prefix)
    ensures Proper(Directed(prefix, c, VerbOf(c, own, ctx).value))
    ensures VerbOf(c, own, ctx).value.Nothing? <==> c == 'v' && Nameless(ctx)
  {
  }

  predicate Nameless(ctx: Ctx) {
    Sender(ctx).Ok? && Sender(ctx).value.name == ""
  }

  lemma ReadDirective(prefix: string, verb: char, rest: string)
    requires IsSpec(prefix) && Ends(verb) && verb != '*' && verb != '['
    ensures Read("%" + prefix + [verb] + rest)
         == [if verb == '%' then Percent(prefix) else Token.Operand(prefix, verb)] + Read(rest)
  {
    var s := "%" + prefix + [verb] + rest;
    var v := |prefix| + 1;
    assert s[1..v] == prefix && s[v] == verb && s[v + 1..] == rest;
    SpecEnds(s, 1, v);
  }

  lemma ReadPadded(prefix: string, rest: string)
    requires IsSpec(prefix)
    ensures Read("%" + prefix + "4s" + rest) == [Token.Operand(prefix + "4", 's')] + Read(rest)
  {
    MoreDigits(prefix);
    ReadDirective(prefix + "4", 's', rest);
    assert "%" + prefix + "4s" + rest == "%" + (prefix + "4") + ['s'] + rest;
  }

  lemma ReadOperand(prefix: string, emitted: string, rest: string)
    requires IsSpec(prefix) && (emitted == "s" || emitted == "d" || emitted == "4s")
    ensures Read("%" + prefix + emitted + rest)
         == [Token.Operand(prefix + emitted[..|emitted| - 1], emitted[|emitted| - 1])] + Read(rest)
  {
    if emitted == "4s" {
      ReadPadded(prefix, rest);
      assert "4s"[..1] == "4";
    } else {
      var verb := emitted[0];
      ReadDirective(prefix, verb, rest);
      assert emitted == [verb];
      assert prefix + emitted[..0] == prefix;
    }
  }

  lemma ReadLiteral(prefix: string, c: char, rest: string)
    requires IsSpec(prefix) && c != '%'
    ensures Read("%" + prefix + "%" + [c] + rest) == [Percent(prefix), Char(c)] + Read(rest)
  {
    var tail := [c] + rest;
    ReadDirective(prefix, '%', tail);
    assert "%" + prefix + "%" + [c] + rest == "%" + prefix + ['%'] + tail;
    assert tail[1..] == rest;
    assert Read(tail) == [Char(c)] + Read(rest);
    assert [Percent(prefix)] + ([Char(c)] + Read(rest)) == [Percent(prefix), Char(c)] + Read(rest);
  }

  lemma ReadItem(it: Item, rest: string)
    requires Proper(it) && !IsNothing(it)
    ensures Read(ItemText(it) + rest) == Wanted(it) + Read(rest)
  {
    match it
    case Copy(c) => assert ([c] + rest)[1..] == rest;
    case Directed(prefix, c, Escape) => ReadDirective(prefix, '%', rest);
    case Directed(prefix, c, Operand(emitted, arg)) => ReadOperand(prefix, emitted, rest);
    case Directed(prefix, c, Nothing) =>
    case Directed(prefix, c, Literal) => ReadLiteral(prefix, c, rest);
  }

  predicate IsNothing(it: Item) {
    it.Directed? && it.verb.Nothing?
  }

  predicate IsVerb(it: Item, c: char) {
    it.Directed? && it.c == c
  }

  ghost predicate HasNothing(items: seq<Item>) {
    exists i :: 0 <= i < |items| && IsNothing(items[i])
  }

  ghost predicate HasVerb(items: seq<Item>, c: char) {
    exists i :: 0 <= i < |items| && IsVerb(items[i], c)
  }

  lemma HasCons(it: Item, rest: seq<Item>)
    ensures HasNothing([it] + rest) <==> IsNothing(it) || HasNothing(rest)
    ensures HasVerb([it] + rest, 'v') <==> IsVerb(it, 'v') || HasVerb(rest, 'v')
  {
    var all := [it] + rest;
    assert IsNothing(it) ==> IsNothing(all[0]);
    assert IsVerb(it, 'v') ==> IsVerb(all[0], 'v');
    forall i | 0 <= i < |rest| ensures rest[i] == all[i + 1] {
    }
    if HasNothing(rest) {
      var i :| 0 <= i < |rest| && IsNothing(rest[i]);
      assert IsNothing(all[i + 1]);
    }
    if HasVerb(rest, 'v') {
      var i :| 0 <= i < |rest| && IsVerb(rest[i], 'v');
      assert IsVerb(all[i + 1], 'v');
    }
  }

  lemma {:induction false} ReadItems(items: seq<Item>)
    requires AllProper(items) && !HasNothing(items)
    ensures Read(Texts(items)) == AllWanted(items)
  {
    if items != [] {
      assert Proper(items[0]);
      ReadItems(items[1..]);
      ReadItem(items[0], Texts(items[1..]));
    }
  }

  lemma {:induction false} TokensTextAppend(a: seq<Token>, b: seq<Token>)
    ensures TokensText(a + b) == TokensText(a) + TokensText(b)
  {
    if a == [] {
      assert a + b == b;
    } else {
      var t, rest := a[0], a[1..];
      assert a == [t] + rest;
      Assoc([t], rest, b);
      TokensTextAppend(rest, b);
      TokensTextCons(t, rest + b);
      Assoc(TokenText(t), TokensText(rest), TokensText(b));
    }
  }

  /** A '%' that names nobody is in the output but not wanted there. */
  lemma WantedLength(it: Item)
    requires Proper(it)
    ensures |TokensText(Wanted(it))| <= |ItemText(it)|
    ensures IsNothing(it) ==> |TokensText(Wanted(it))| < |ItemText(it)|
  {
    match it
    case Copy(c) =>
    case Directed(prefix, c, Escape) =>
    case Directed(prefix, c, Operand(emitted, arg)) =>
    case Directed(prefix, c, Nothing) =>
    case Directed(prefix, c, Literal) =>
      TokensTextCons(Percent(prefix), [Char(c)]);
      TokensTextCons(Char(c), []);
      assert Wanted(it) == [Percent(prefix)] + [Char(c)];
  }

  lemma {:induction false} AllWantedLength(items: seq<Item>)
    requires AllProper(items)
    ensures |TokensText(AllWanted(items))| <= |Texts(items)|
    ensures HasNothing(items) ==> |TokensText(AllWanted(items))| < |Texts(items)|
  {
    if items != [] {
      var it, rest := items[0], items[1..];
      assert Proper(it);
      assert items == [it] + rest;
      HasCons(it, rest);
      AllWantedLength(rest);
      WantedLength(it);
      TokensTextAppend(Wanted(it), AllWanted(rest));
      LengthAppend(ItemText(it), Texts(rest));
      LengthAppend(TokensText(Wanted(it)), TokensText(AllWanted(rest)));
    }
  }

  lemma LengthAppend(a: string, b: string)
    ensures |a + b| == |a| + |b|
  {
  }

  lemma ReadIff(items: seq<Item>)
    requires AllProper(items)
    ensures Read(Texts(items)) == AllWanted(items) <==> !HasNothing(items)
  {
    if HasNothing(items) {
      AllWantedLength(items);
      ReadIsLossless(Texts(items));
    } else {
      ReadItems(items);
    }
  }

  // The format and its context

  /** The source format directive by directive, in its context. */
  function Meaning(format: string, ctx: Ctx): seq<Item>
    requires ParsedFormat(format, ctx).Ok?
  {
    Items(format, 0, VerbsIn(ctx))
  }

  lemma {:induction false} ItemsAreProper(format: string, i: nat, ctx: Ctx)
    requires i <= |format| && ctx.accountFrom.Some? && Compile(format, i, VerbsIn(ctx)).Ok?
    ensures AllProper(Items(format, i, VerbsIn(ctx)))
    ensures HasNothing(Items(format, i, VerbsIn(ctx)))
       <==> HasVerb(Items(format, i, VerbsIn(ctx)), 'v') && Nameless(ctx)
    decreases |format| - i
  {
    if i < |format| {
      var (p, n) := Next(format, i).value;
      ItemsAreProper(format, n, ctx);
      HasCons(Resolved(p, VerbsIn(ctx)), Items(format, n, VerbsIn(ctx)));
      if p.Directive? {
        PrefixIsSpec(format, i + 1);
        VerbsAreProper(p.verb, ctx.accountFrom.value, ctx, p.prefix);
      }
    }
  }

  /**
   The output is read as the source format says, directive by directive, exactly if no %v
   stands for a sender without a name.
   */
  lemma ReadAsWritten(format: string, ctx: Ctx)
    requires ParsedFormat(format, ctx).Ok?
    ensures AllProper(Meaning(format, ctx))
    ensures Read(ParsedFormat(format, ctx).value.0) == AllWanted(Meaning(format, ctx))
       <==> !(HasVerb(Meaning(format, ctx), 'v') && Nameless(ctx))
  {
    ItemsAreProper(format, 0, ctx);
    CompileIsItems(format, 0, VerbsIn(ctx));
    ReadIff(Meaning(format, ctx));
  }

  // Operands

  /** The verbs of the directives that take an operand. */
  function OperandVerbs(ts: seq<Token>): seq<char> {
    if ts == [] then []
    else (if ts[0].Operand? then [ts[0].verb] else []) + OperandVerbs(ts[1..])
  }

  function KindOf(a: Arg): char {
    if a.Int? then 'd' else 's'
  }

  lemma OperandVerbsCons(t: Token, ts: seq<Token>)
    ensures OperandVerbs([t] + ts) == (if t.Operand? then [t.verb] else []) + OperandVerbs(ts)
  {
    assert ([t] + ts)[1..] == ts;
  }

  lemma {:induction false} OperandVerbsAppend(a: seq<Token>, b: seq<Token>)
    ensures OperandVerbs(a + b) == OperandVerbs(a) + OperandVerbs(b)
  {
    if a == [] {
      assert a + b == b;
    } else {
      var t, rest := a[0], a[1..];
      assert a == [t] + rest;
      Assoc([t], rest, b);
      OperandVerbsAppend(rest, b);
      OperandVerbsCons(t, rest + b);
      Assoc(if t.Operand? then [t.verb] else [], OperandVerbs(rest), OperandVerbs(b));
    }
  }

  lemma {:induction false} WantedOperands(items: seq<Item>)
    requires AllProper(items)
    ensures OperandVerbs(AllWanted(items)) == Map(Args(items), KindOf)
  {
    if items != [] {
      assert Proper(items[0]);
      WantedOperands(items[1..]);
      OperandVerbsAppend(Wanted(items[0]), AllWanted(items[1..]));
      assert OperandVerbs(Wanted(items[0])) == Map(ItemArgs(items[0]), KindOf);
      MapAppend(ItemArgs(items[0]), Args(items[1..]), KindOf);
    }
  }

  /** Exactly as many operands are taken as there are arguments, each by a verb of its kind. */
  lemma OperandsMatch(format: string, ctx: Ctx)
    requires ParsedFormat(format, ctx).Ok?
    requires !(HasVerb(Meaning(format, ctx), 'v') && Nameless(ctx))
    ensures var (out, args) := ParsedFormat(format, ctx).value;
            OperandVerbs(Read(out)) == Map(args, KindOf)
  {
    ReadAsWritten(format, ctx);
    CompileIsItems(format, 0, VerbsIn(ctx));
    WantedOperands(Meaning(format, ctx));
  }

  // Rendering

  /**
   How the library prints an operand under a prefix and a verb, a directive it cannot
   satisfy, and arguments nothing asked for.
   */
  datatype Printer = Printer(operand: (string, char, Arg) -> string, odd: Token -> string, extra: seq<Arg> -> string)

  function Render(ts: seq<Token>, args: seq<Arg>, pr: Printer): string {
    if ts == [] then if args == [] then "" else pr.extra(args)
    else
      match ts[0]
      case Char(c) => [c] + Render(ts[1..], args, pr)
      case Percent(_) => "%" + Render(ts[1..], args, pr)
      case Operand(prefix, verb) =>
        if args == [] then pr.odd(ts[0]) + Render(ts[1..], args, pr)
        else pr.operand(prefix, verb, args[0]) + Render(ts[1..], args[1..], pr)
      case NoVerb(_) => pr.odd(ts[0]) + Render(ts[1..], args, pr)
      case Unread(_) => pr.odd(ts[0]) + Render(ts[1..], args, pr)
  }

  /** A width or a precision is given. */
  predicate Sized(prefix: string) {
    FlagEnd(prefix, 0) < |prefix|
  }

  /**
   What a directive of the source format stands for: the flags of a message are four wide
   unless the format says otherwise, and a verb without meaning stands for itself.
   */
  function Interpreted(it: Item, pr: Printer): string {
    match it
    case Copy(c) => [c]
    case Directed(prefix, c, Escape) => "%"
    case Directed(prefix, c, Operand(_, arg)) =>
      pr.operand(if c == 'Z' && !Sized(prefix) then prefix + "4" else prefix, KindOf(arg), arg)
    case Directed(prefix, c, Nothing) => ""
    case Directed(prefix, c, Literal) => "%" + prefix + [c]
  }

  function Interpretation(items: seq<Item>, pr: Printer): string {
    if items == [] then "" else Interpreted(items[0], pr) + Interpretation(items[1..], pr)
  }

  /** A sized %Z gets another digit, and the prefix of a verb without meaning is lost. */
  predicate Awkward(it: Item) {
    && it.Directed?
    && match it.verb
       case Operand(_, arg) => it.c == 'Z' && Sized(it.prefix)
       case Literal => it.prefix != ""
       case _ => false
  }

  /** What a directive in fact turns into. */
  function Shown(it: Item, pr: Printer): string
    requires Proper(it)
  {
    match it
    case Copy(c) => [c]
    case Directed(prefix, c, Escape) => "%"
    case Directed(prefix, c, Operand(emitted, arg)) =>
      pr.operand(prefix + emitted[..|emitted| - 1], KindOf(arg), arg)
    case Directed(prefix, c, Nothing) => ""
    case Directed(prefix, c, Literal) => "%" + [c]
  }

  function AllShown(items: seq<Item>, pr: Printer): string
    requires AllProper(items)
  {
    if items == [] then "" else Shown(items[0], pr) + AllShown(items[1..], pr)
  }

  lemma RenderCons(t: Token, ts: seq<Token>, args: seq<Arg>, pr: Printer)
    ensures t.Char? ==> Render([t] + ts, args, pr) == [t.c] + Render(ts, args, pr)
    ensures t.Percent? ==> Render([t] + ts, args, pr) == "%" + Render(ts, args, pr)
    ensures t.Operand? && args != [] ==>
              Render([t] + ts, args, pr) == pr.operand(t.prefix, t.verb, args[0]) + Render(ts, args[1..], pr)
  {
    assert ([t] + ts)[1..] == ts;
  }

  lemma RenderLiteral(prefix: string, c: char, ts: seq<Token>, args: seq<Arg>, pr: Printer)
    ensures Render([Percent(prefix), Char(c)] + ts, args, pr) == "%" + [c] + Render(ts, args, pr)
  {
    assert [Percent(prefix), Char(c)] + ts == [Percent(prefix)] + ([Char(c)] + ts);
    RenderCons(Percent(prefix), [Char(c)] + ts, args, pr);
    RenderCons(Char(c), ts, args, pr);
    Assoc("%", [c], Render(ts, args, pr));
  }

  lemma RenderItem(it: Item, ts: seq<Token>, args: seq<Arg>, pr: Printer)
    requires Proper(it)
    ensures Render(Wanted(it) + ts, ItemArgs(it) + args, pr) == Shown(it, pr) + Render(ts, args, pr)
  {
    assert [] + args == args;
    match it
    case Copy(c) => RenderCons(Char(c), ts, args, pr);
    case Directed(prefix, c, Escape) => RenderCons(Percent(prefix), ts, args, pr);
    case Directed(prefix, c, Operand(_, arg)) =>
      RenderCons(Wanted(it)[0], ts, [arg] + args, pr);
      assert ([arg] + args)[1..] == args;
    case Directed(prefix, c, Nothing) =>
      assert [] + ts == ts && "" + Render(ts, args, pr) == Render(ts, args, pr);
    case Directed(prefix, c, Literal) => RenderLiteral(prefix, c, ts, args, pr);
  }

  lemma {:induction false} RenderWanted(items: seq<Item>, pr: Printer)
    requires AllProper(items)
    ensures Render(AllWanted(items), Args(items), pr) == AllShown(items, pr)
  {
    if items != [] {
      assert Proper(items[0]);
      RenderWanted(items[1..], pr);
      RenderItem(items[0], AllWanted(items[1..]), Args(items[1..]), pr);
    }
  }

  ghost predicate HasAwkward(items: seq<Item>) {
    exists i :: 0 <= i < |items| && Awkward(items[i])
  }

  lemma ShownOperand(it: Item, pr: Printer)
    requires Proper(it)
    ensures it.Directed? && it.verb.Operand? ==>
              Shown(it, pr) == pr.operand(if it.c == 'Z' then it.prefix + "4" else it.prefix, KindOf(it.verb.arg), it.verb.arg)
    ensures it.Directed? && it.prefix == "" ==> "%" + it.prefix == "%"
  {
    if it.Directed? && it.verb.Operand? {
      assert "4s"[..1] == "4";
      assert it.prefix + it.verb.emitted[..0] == it.prefix;
    }
  }

  lemma {:induction false} ShownIsInterpreted(items: seq<Item>, pr: Printer)
    requires AllProper(items) && !HasAwkward(items)
    ensures AllShown(items, pr) == Interpretation(items, pr)
  {
    if items != [] {
      var it := items[0];
      assert Proper(it) && !Awkward(it);
      ShownOperand(it, pr);
      ShownIsInterpreted(items[1..], pr);
    }
  }

  /** A printer that drops operands under longer prefixes. */
  function Dropping(limit: nat): Printer {
    Printer((p: string, v: char, a: Arg) => if |p| <= limit then "x" else "", (t: Token) => "", (rest: seq<Arg>) => "")
  }

  lemma ShownShorter(it: Item, limit: nat)
    requires Proper(it)
    ensures |Shown(it, Dropping(limit))| <= |Interpreted(it, Dropping(limit))|
    ensures Awkward(it) && limit == |it.prefix| ==>
              |Shown(it, Dropping(limit))| < |Interpreted(it, Dropping(limit))|
  {
    ShownOperand(it, Dropping(limit));
  }

  lemma {:induction false} AllShownShorter(items: seq<Item>, at: int, limit: nat)
    requires AllProper(items)
    requires 0 <= at < |items| ==> Awkward(items[at]) && limit == |items[at].prefix|
    ensures |AllShown(items, Dropping(limit))| <= |Interpretation(items, Dropping(limit))|
    ensures 0 <= at < |items| ==> |AllShown(items, Dropping(limit))| < |Interpretation(items, Dropping(limit))|
  {
    if items != [] {
      assert Proper(items[0]);
      ShownShorter(items[0], limit);
      AllShownShorter(items[1..], at - 1, limit);
      LengthAppend(Shown(items[0], Dropping(limit)), AllShown(items[1..], Dropping(limit)));
      LengthAppend(Interpreted(items[0], Dropping(limit)), Interpretation(items[1..], Dropping(limit)));
    }
  }

  /**
   However operands are printed, printing the compiled format gives what the source format
   stands for, exactly if no %Z has a width or a precision and no verb without meaning has
   a prefix.
   */
  lemma RendersAsWritten(format: string, ctx: Ctx)
    requires ParsedFormat(format, ctx).Ok?
    requires !(HasVerb(Meaning(format, ctx), 'v') && Nameless(ctx))
    ensures var (out, args) := ParsedFormat(format, ctx).value;
            (forall pr: Printer :: Render(Read(out), args, pr) == Interpretation(Meaning(format, ctx), pr))
            <==> !HasAwkward(Meaning(format, ctx))
  {
    var items := Meaning(format, ctx);
    var (out, args) := ParsedFormat(format, ctx).value;
    ReadAsWritten(format, ctx);
    CompileIsItems(format, 0, VerbsIn(ctx));
    if HasAwkward(items) {
      var i :| 0 <= i < |items| && Awkward(items[i]);
      var pr := Dropping(|items[i].prefix|);
      RenderWanted(items, pr);
      AllShownShorter(items, i, |items[i].prefix|);
      assert Render(Read(out), args, pr) != Interpretation(items, pr);
    } else {
      forall pr: Printer ensures Render(Read(out), args, pr) == Interpretation(items, pr) {
        RenderWanted(items, pr);
        ShownIsInterpreted(items, pr);
      }
    }
  }

  // Instances

  const ME := Address("Me", "me@home")

  /** A context with an unseen message from a sender without a name. */
  const FROM_NOBODY :=
    Ctx(Some(ME), "home", 1, false, Some(Envelope(None, "", "", [Address("", "a@b")], [], [], [])), [], [], 0, None, 0)

  /** One directive of a format without anything else. */
  lemma OneDirective(format: string, prefix: string, c: char, verbs: Verbs)
    requires format != "" && Next(format, 0) == Ok((Directive(prefix, c), |format|)) && verbs(c).Ok?
    ensures Compile(format, 0, verbs).Ok?
    ensures Items(format, 0, verbs) == [Directed(prefix, c, verbs(c).value)]
  {
    assert Compile(format, |format|, verbs) == Ok(("", []));
    assert Items(format, |format|, verbs) == [];
    assert Emit(Directive(prefix, c), verbs).Ok?;
  }

  /** A nameless %v is read as a percent sign that runs into the end. */
  lemma NamelessIsMisread()
    ensures ParsedFormat("%v", FROM_NOBODY).Ok?
    ensures AllProper(Meaning("%v", FROM_NOBODY))
    ensures Read(ParsedFormat("%v", FROM_NOBODY).value.0) != AllWanted(Meaning("%v", FROM_NOBODY))
  {
    assert VerbAt("%v", 1) == Ok(1);
    assert "%v"[1..1] == "";
    OneDirective("%v", "", 'v', VerbsIn(FROM_NOBODY));
    assert IsVerb(Meaning("%v", FROM_NOBODY)[0], 'v');
    ReadAsWritten("%v", FROM_NOBODY);
  }

  /** A %Z with a width, and a verb without meaning with one. */
  lemma SizedIsMisprinted(format: string)
    requires format == "%1Z" || format == "%1k"
    ensures ParsedFormat(format, FROM_NOBODY).Ok?
    ensures exists pr: Printer ::
      Render(Read(ParsedFormat(format, FROM_NOBODY).value.0), ParsedFormat(format, FROM_NOBODY).value.1, pr)
      != Interpretation(Meaning(format, FROM_NOBODY), pr)
  {
    var c := format[2];
    assert SkipDigits(format, 1) == 2;
    assert VerbAt(format, 1) == Ok(2);
    assert format[1..2] == "1";
    OneDirective(format, "1", c, VerbsIn(FROM_NOBODY));
    assert Awkward(Meaning(format, FROM_NOBODY)[0]);
    RendersAsWritten(format, FROM_NOBODY);
  }
}
