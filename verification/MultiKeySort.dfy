/**
 Sorting a folder by several criteria (worker/lib/sort.go): the list is sorted stably
 by each criterion from the last to the first.  It is proved to be one stable sort by
 the lexicographic order of all of them.
 */
module MultiKeySort {
  import opened Collections
  import opened StableSorting

  datatype Field =
    | SortArrival | SortCc | SortDate | SortFrom | SortRead | SortSize | SortSubject | SortTo

  datatype Criterion = Criterion(field: Field, reverse: bool)

  datatype Address = Address(name: string, address: string)

  datatype Flag = Seen | Recent | Answered | Deleted | Flagged

  datatype Envelope = Envelope(date: int, subject: string, from: seq<Address>, to: seq<Address>, cc: seq<Address>)

  /** The envelope is a pointer that may be nil. */
  datatype Info = Info(uid: nat, internalDate: int, envelope: Option<Envelope>, flags: seq<Flag>, size: nat)

  /** What reading a field of an envelope that is not there stands for; no sort that succeeds has read one. */
  const NO_ENVELOPE := Envelope(0, "", [], [], [])

  function EnvelopeOf(m: Info): Envelope {
    if m.envelope.Some? then m.envelope.value else NO_ENVELOPE
  }

  /**
   Whether sorting by a field reads a nil envelope, which the source does not survive: the
   subject of every message is read, and the others by comparisons, of which every message
   takes part in one as soon as there are two.
   */
  predicate Faults(f: Field, s: seq<Info>) {
    match f
    case SortSubject => exists i :: 0 <= i < |s| && s[i].envelope.None?
    case SortArrival => false
    case SortRead => false
    case SortSize => false
    case _ => |s| > 1 && exists i :: 0 <= i < |s| && s[i].envelope.None?
  }

  /** The library's lower-casing of a string, whatever it is. */
  type Lower = string -> string

  /** Go's order on strings: bytewise, which for UTF-8 is by code point. */
  predicate StringLess(a: string, b: string) {
    if b == [] then false
    else if a == [] then true
    else a[0] < b[0] || (a[0] == b[0] && StringLess(a[1..], b[1..]))
  }

  lemma {:induction false} StringLessTotal(a: string, b: string)
    ensures StringLess(a, b) || StringLess(b, a) || a == b
    ensures !(StringLess(a, b) && StringLess(b, a))
    ensures !StringLess(a, a)
  {
    if a != [] {
      StringLessTotal(a[1..], a[1..]);
    }
    if a != [] && b != [] {
      StringLessTotal(a[1..], b[1..]);
      assert a == [a[0]] + a[1..] && b == [b[0]] + b[1..];
    }
  }

  lemma {:induction false} StringLessSplits(a: string, b: string, c: string)
    requires StringLess(a, b)
    ensures StringLess(a, c) || StringLess(c, b)
  {
    if a != [] && c != [] && a[0] == c[0] == b[0] {
      StringLessSplits(a[1..], b[1..], c[1..]);
    }
  }

  function TrimPrefix(s: string, prefix: string): string {
    if prefix <= s then s[|prefix|..] else s
  }

  /** What subjects are compared by. */
  function SubjectOf(lower: Lower): Info -> string {
    (m: Info) => TrimPrefix(TrimPrefix(lower(EnvelopeOf(m).subject), "re: "), "fwd: ")
  }

  function CcOf(m: Info): seq<Address> { EnvelopeOf(m).cc }
  function FromOf(m: Info): seq<Address> { EnvelopeOf(m).from }
  function ToOf(m: Info): seq<Address> { EnvelopeOf(m).to }

  function AddressName(a: Address): string {
    if a.name != "" then a.name else a.address
  }

  function First(l: seq<Address>): Option<string> {
    if |l| > 0 then Some(AddressName(l[0])) else None
  }

  /** No address at all comes last. */
  predicate AddressesLess(a: seq<Address>, b: seq<Address>) {
    match (First(a), First(b))
    case (None, _) => false
    case (Some(_), None) => true
    case (Some(x), Some(y)) => StringLess(x, y)
  }

  predicate FlagLess(a: bool, b: bool) {
    a && !b
  }

  function ByAddresses(getValue: Info -> seq<Address>): Less<Info> {
    (a, b) => AddressesLess(getValue(a), getValue(b))
  }

  function IsFlagged(flag: Flag): Info -> bool {
    (m: Info) => flag in m.flags
  }

  function ByFlag(flag: Flag): Less<Info> {
    (a: Info, b: Info) => FlagLess(IsFlagged(flag)(a), IsFlagged(flag)(b))
  }

  function ByString(getValue: Info -> string): Less<Info> {
    (a, b) => StringLess(getValue(a), getValue(b))
  }

  function ByNumber(getValue: Info -> int): Less<Info> {
    (a, b) => getValue(a) < getValue(b)
  }

  function ArrivalOf(m: Info): int { m.internalDate }
  function DateOf(m: Info): int { EnvelopeOf(m).date }
  function SizeOf(m: Info): int { m.size }

  function FieldLess(lower: Lower, f: Field): Less<Info> {
    match f
    case SortArrival => ByNumber(ArrivalOf)
    case SortCc => ByAddresses(CcOf)
    case SortDate => ByNumber(DateOf)
    case SortFrom => ByAddresses(FromOf)
    case SortRead => ByFlag(Seen)
    case SortSize => ByNumber(SizeOf)
    case SortSubject => ByString(SubjectOf(lower))
    case SortTo => ByAddresses(ToOf)
  }

  /** Reversing a criterion turns the order around; it does not reverse ties. */
  function Directed<T>(less: Less<T>, reverse: bool): Less<T> {
    if reverse then (a, b) => less(b, a) else less
  }

  function CriterionLess(lower: Lower, c: Criterion): Less<Info> {
    Directed(FieldLess(lower, c.field), c.reverse)
  }

  /** The order the user asked for: by the first criterion, ties by the second, and so on. */
  function Order(lower: Lower, criteria: seq<Criterion>): Less<Info> {
    if criteria == [] then (a: Info, b: Info) => false
    else Lexicographic(CriterionLess(lower, criteria[0]), Order(lower, criteria[1..]))
  }

  lemma ByAddressesOrder(getValue: Info -> seq<Address>)
    ensures StrictWeakOrder(ByAddresses(getValue))
  {
    var less := ByAddresses(getValue);
    forall a, b, c | less(a, b) ensures !less(b, a) && (less(a, c) || less(c, b)) {
      AddressesOrder(getValue(a), getValue(b), getValue(c));
    }
  }

  lemma ByStringOrder(getValue: Info -> string)
    ensures StrictWeakOrder(ByString(getValue))
  {
    var less := ByString(getValue);
    forall a, b, c | less(a, b) ensures !less(b, a) && (less(a, c) || less(c, b)) {
      StringsOrder(getValue(a), getValue(b), getValue(c));
    }
  }

  lemma ByNumberOrder(getValue: Info -> int)
    ensures StrictWeakOrder(ByNumber(getValue))
  {
    var less := ByNumber(getValue);
    assert forall a, b :: less(a, b) <==> getValue(a) < getValue(b);
  }

  lemma ByFlagOrder(flag: Flag)
    ensures StrictWeakOrder(ByFlag(flag))
  {
    var less := ByFlag(flag);
    assert forall a, b :: less(a, b) <==> IsFlagged(flag)(a) && !IsFlagged(flag)(b);
  }

  lemma DirectedOrder<T(!new)>(less: Less<T>, reverse: bool)
    requires StrictWeakOrder(less)
    ensures StrictWeakOrder(Directed(less, reverse))
  {
    var d := Directed(less, reverse);
    forall a, b, c | d(a, b) ensures !d(b, a) && (d(a, c) || d(c, b)) {}
  }

  /** Every criterion is an order a sort can work with. */
  lemma CriterionOrder(lower: Lower, c: Criterion)
    ensures StrictWeakOrder(CriterionLess(lower, c))
  {
    ByAddressesOrder(CcOf);
    ByAddressesOrder(FromOf);
    ByAddressesOrder(ToOf);
    ByStringOrder(SubjectOf(lower));
    ByNumberOrder(ArrivalOf);
    ByNumberOrder(DateOf);
    ByNumberOrder(SizeOf);
    ByFlagOrder(Seen);
    DirectedOrder(FieldLess(lower, c.field), c.reverse);
  }

  lemma StringsOrder(a: string, b: string, c: string)
    ensures StringLess(a, b) ==> !StringLess(b, a) && (StringLess(a, c) || StringLess(c, b))
  {
    StringLessTotal(a, b);
    if StringLess(a, b) {
      StringLessSplits(a, b, c);
    }
  }

  lemma AddressesOrder(a: seq<Address>, b: seq<Address>, c: seq<Address>)
    ensures AddressesLess(a, b) ==> !AddressesLess(b, a) && (AddressesLess(a, c) || AddressesLess(c, b))
  {
    if First(a).Some? && First(b).Some? {
      StringsOrder(First(a).value, First(b).value, if First(c).Some? then First(c).value else "");
    }
  }

  lemma {:induction false} OrderIsOrder(lower: Lower, criteria: seq<Criterion>)
    ensures StrictWeakOrder(Order(lower, criteria))
  {
    if criteria != [] {
      CriterionOrder(lower, criteria[0]);
      OrderIsOrder(lower, criteria[1..]);
      LexicographicOrder(CriterionLess(lower, criteria[0]), Order(lower, criteria[1..]));
    }
  }

  /** sortSlice: a stable sort in the criterion's direction. */
  method SortSlice<T(!new)>(c: Criterion, slice: array<T>, less: Less<T>)
    modifies slice
    ensures slice[..] == StableSort(Directed(less, c.reverse), old(slice[..]))
  {
    if c.reverse {
      SliceStable(slice, (a, b) => less(b, a));
    } else {
      SliceStable(slice, less);
    }
  }

  method SortAddresses(messageInfos: array<Info>, c: Criterion, getValue: Info -> seq<Address>)
    modifies messageInfos
    ensures messageInfos[..] == StableSort(Directed(ByAddresses(getValue), c.reverse), old(messageInfos[..]))
  {
    SortSlice(c, messageInfos, ByAddresses(getValue));
  }

  /** The next two sorts carry each message beside its key and copy the messages back. */
  datatype Keyed<+K> = Keyed(value: K, msgInfo: Info)

  function WithKey<K>(key: Info -> K): Info -> Keyed<K> {
    m => Keyed(key(m), m)
  }

  function ByKey<K>(less: Less<K>): Less<Keyed<K>> {
    (a: Keyed<K>, b: Keyed<K>) => less(a.value, b.value)
  }

  /** Sorting the keyed messages by key and taking the messages is sorting the messages. */
  lemma SortKeyed<K(!new)>(less: Less<K>, key: Info -> K, byKey: Less<Info>, reverse: bool, s: seq<Info>)
    requires forall a, b :: byKey(a, b) == less(key(a), key(b))
    ensures Map(StableSort(Directed(ByKey(less), reverse), Map(s, WithKey(key))), (k: Keyed<K>) => k.msgInfo) ==
      StableSort(Directed(byKey, reverse), s)
  {
    SortDecorated(Directed(byKey, reverse), s, Directed(ByKey(less), reverse), WithKey(key));
  }

  method SortFlags(messageInfos: array<Info>, c: Criterion, testFlag: Flag)
    modifies messageInfos
    ensures messageInfos[..] == StableSort(Directed(ByFlag(testFlag), c.reverse), old(messageInfos[..]))
  {
    var key := IsFlagged(testFlag);
    var slice := new Keyed<bool>[messageInfos.Length](i requires 0 <= i < messageInfos.Length reads messageInfos =>
      Keyed(false, messageInfos[i]));
    for i := 0 to messageInfos.Length
      invariant forall k :: 0 <= k < i ==> slice[k] == WithKey(key)(messageInfos[k])
      invariant messageInfos[..] == old(messageInfos[..])
    {
      var flagPresent := HasFlag(messageInfos[i].flags, testFlag);
      slice[i] := Keyed(flagPresent, messageInfos[i]);
    }
    assert slice[..] == Map(old(messageInfos[..]), WithKey(key));
    SortSlice(c, slice, ByKey(FlagLess));
    SortKeyed(FlagLess, key, ByFlag(testFlag), c.reverse, old(messageInfos[..]));
    CopyBack(messageInfos, slice);
  }

  method HasFlag(flags: seq<Flag>, testFlag: Flag) returns (present: bool)
    ensures present <==> testFlag in flags
  {
    present := false;
    for j := 0 to |flags|
      invariant present <==> testFlag in flags[..j]
    {
      if flags[j] == testFlag {
        present := true;
      }
    }
  }

  method SortStrings(messageInfos: array<Info>, c: Criterion, getValue: Info -> string)
    modifies messageInfos
    ensures messageInfos[..] == StableSort(Directed(ByString(getValue), c.reverse), old(messageInfos[..]))
  {
    var slice := new Keyed<string>[messageInfos.Length](i requires 0 <= i < messageInfos.Length reads messageInfos =>
      Keyed("", messageInfos[i]));
    for i := 0 to messageInfos.Length
      invariant forall k :: 0 <= k < i ==> slice[k] == WithKey(getValue)(messageInfos[k])
      invariant messageInfos[..] == old(messageInfos[..])
    {
      slice[i] := Keyed(getValue(messageInfos[i]), messageInfos[i]);
    }
    assert slice[..] == Map(old(messageInfos[..]), WithKey(getValue));
    SortSlice(c, slice, ByKey(StringLess));
    SortKeyed(StringLess, getValue, ByString(getValue), c.reverse, old(messageInfos[..]));
    CopyBack(messageInfos, slice);
  }

  method CopyBack<K>(messageInfos: array<Info>, slice: array<Keyed<K>>)
    requires slice.Length == messageInfos.Length
    modifies messageInfos
    ensures messageInfos[..] == Map(slice[..], (k: Keyed<K>) => k.msgInfo)
  {
    for i := 0 to messageInfos.Length
      invariant forall k :: 0 <= k < i ==> messageInfos[k] == slice[k].msgInfo
    {
      messageInfos[i] := slice[i].msgInfo;
    }
  }

  method SortByCriterion(lower: Lower, messageInfos: array<Info>, c: Criterion) returns (fault: bool)
    modifies messageInfos
    ensures fault <==> Faults(c.field, old(messageInfos[..]))
    ensures !fault ==> messageInfos[..] == StableSort(CriterionLess(lower, c), old(messageInfos[..]))
    ensures !fault ==> SortedAsAsked(lower, [c], old(messageInfos[..]), messageInfos[..])
  {
    fault := Faults(c.field, messageInfos[..]);
    if fault {
      return;
    }
    OneCriterion(lower, c, messageInfos[..]);
    match c.field
    case SortArrival => SortSlice(c, messageInfos, ByNumber(ArrivalOf));
    case SortCc => SortAddresses(messageInfos, c, CcOf);
    case SortDate => SortSlice(c, messageInfos, ByNumber(DateOf));
    case SortFrom => SortAddresses(messageInfos, c, FromOf);
    case SortRead => SortFlags(messageInfos, c, Seen);
    case SortSize => SortSlice(c, messageInfos, ByNumber(SizeOf));
    case SortSubject => SortStrings(messageInfos, c, SubjectOf(lower));
    case SortTo => SortAddresses(messageInfos, c, ToOf);
  }

  /** The order of the messages does not matter to whether sorting them faults. */
  lemma FaultsPermuted(f: Field, s: seq<Info>, t: seq<Info>)
    requires multiset(s) == multiset(t)
    ensures Faults(f, s) <==> Faults(f, t)
  {
    assert |s| == |multiset(s)| == |multiset(t)| == |t|;
    if exists i :: 0 <= i < |s| && s[i].envelope.None? {
      SomeNilPermuted(s, t);
    }
    if exists i :: 0 <= i < |t| && t[i].envelope.None? {
      SomeNilPermuted(t, s);
    }
  }

  lemma SomeNilPermuted(s: seq<Info>, t: seq<Info>)
    requires multiset(s) == multiset(t) && exists i :: 0 <= i < |s| && s[i].envelope.None?
    ensures exists i :: 0 <= i < |t| && t[i].envelope.None?
  {
    var i :| 0 <= i < |s| && s[i].envelope.None?;
    assert s[i] in multiset(s);
    assert s[i] in t;
  }

  /** The uids from last to first, since the list is displayed backwards. */
  function ReversedUids(s: seq<Info>): seq<nat> {
    if s == [] then [] else ReversedUids(s[1..]) + [s[0].uid]
  }

  lemma {:induction false} ReversedUidAt(s: seq<Info>, k: nat)
    requires k < |s|
    ensures |ReversedUids(s)| == |s| && ReversedUids(s)[k] == s[|s| - 1 - k].uid
  {
    if |s| > 1 {
      ReversedUidAt(s[1..], if k < |s| - 1 then k else 0);
    }
  }

  /** One stable pass per criterion, the last criterion first. */
  function Passes(lower: Lower, criteria: seq<Criterion>, s: seq<Info>): seq<Info> {
    if criteria == [] then s
    else StableSort(CriterionLess(lower, criteria[0]), Passes(lower, criteria[1..], s))
  }

  /**
   The passes amount to one stable sort by the lexicographic order of the criteria:
   a permutation, in that order, in which messages equal under all criteria keep
   their places; and nothing else is.
   */
  lemma {:induction false} PassesAreOneSort(lower: Lower, criteria: seq<Criterion>, s: seq<Info>)
    ensures Passes(lower, criteria, s) == StableSort(Order(lower, criteria), s)
    ensures multiset(Passes(lower, criteria, s)) == multiset(s)
    ensures forall t :: IsStableSort(Order(lower, criteria), s, t) <==> t == Passes(lower, criteria, s)
  {
    if criteria == [] {
      SortByNothing(s);
    } else {
      PassesAreOneSort(lower, criteria[1..], s);
      CriterionOrder(lower, criteria[0]);
      OrderIsOrder(lower, criteria[1..]);
      SortTwice(CriterionLess(lower, criteria[0]), Order(lower, criteria[1..]), s);
    }
    OrderIsOrder(lower, criteria);
    StableSortCorrect(Order(lower, criteria), s);
    forall t ensures IsStableSort(Order(lower, criteria), s, t) <==> t == Passes(lower, criteria, s) {
      StableSortCharacterised(Order(lower, criteria), s, t);
    }
  }

  /** The strings agree before k and differ there. */
  ghost predicate DifferAt(a: string, b: string, k: nat) {
    k < |a| && k < |b| && a[k] != b[k] && forall l :: 0 <= l < k ==> a[l] == b[l]
  }

  /** a is b or stands before it in a dictionary. */
  ghost predicate AtMost(a: string, b: string) {
    a <= b || exists k: nat :: DifferAt(a, b, k) && a[k] < b[k]
  }

  lemma DifferFurther(a: string, b: string, k: nat)
    requires a != [] && b != [] && a[0] == b[0]
    ensures DifferAt(a, b, k + 1) <==> DifferAt(a[1..], b[1..], k)
  {
    if DifferAt(a, b, k + 1) {
      assert forall l :: 0 <= l < k ==> a[1..][l] == a[l + 1] && b[1..][l] == b[l + 1];
    }
    if DifferAt(a[1..], b[1..], k) {
      forall l | 0 <= l < k + 1 ensures a[l] == b[l] {
        if l > 0 {
          assert a[1..][l - 1] == b[1..][l - 1];
        }
      }
    }
  }

  lemma AtMostCons(a: string, b: string)
    requires a != [] && b != [] && a[0] == b[0]
    ensures AtMost(a, b) <==> AtMost(a[1..], b[1..])
  {
    PrefixCons(a, b);
    if AtMost(a, b) && !(a <= b) {
      var k: nat :| DifferAt(a, b, k) && a[k] < b[k];
      DifferFurther(a, b, k - 1);
    }
    if AtMost(a[1..], b[1..]) && !(a[1..] <= b[1..]) {
      var k: nat :| DifferAt(a[1..], b[1..], k) && a[1..][k] < b[1..][k];
      DifferFurther(a, b, k);
    }
  }

  lemma PrefixCons(a: string, b: string)
    requires a != [] && b != [] && a[0] == b[0]
    ensures a <= b <==> a[1..] <= b[1..]
  {
    if a[1..] <= b[1..] {
      forall i | 0 <= i < |a| ensures a[i] == b[i] {
        if i > 0 {
          assert a[1..][i - 1] == b[1..][i - 1];
        }
      }
    }
  }

  lemma {:induction false} AtMostMeans(a: string, b: string)
    ensures AtMost(a, b) <==> !StringLess(b, a)
  {
    if a == [] {
    } else if b == [] {
    } else if a[0] == b[0] {
      AtMostCons(a, b);
      AtMostMeans(a[1..], b[1..]);
    } else {
      assert DifferAt(a, b, 0);
      assert forall k: nat :: DifferAt(a, b, k) ==> k == 0;
    }
  }

  /** t is the subject in lower case without one "re: " and then one "fwd: " in front. */
  ghost predicate BareSubject(lower: Lower, subject: string, t: string) {
    exists re, fwd ::
      && re in ["", "re: "] && fwd in ["", "fwd: "]
      && lower(subject) == re + (fwd + t)
      && (re == "" ==> !("re: " <= lower(subject)))
      && (fwd == "" ==> !("fwd: " <= t))
  }

  lemma BareSubjectIs(lower: Lower, m: Info)
    requires m.envelope.Some?
    ensures forall t :: BareSubject(lower, m.envelope.value.subject, t) <==> t == SubjectOf(lower)(m)
  {
    var s := lower(m.envelope.value.subject);
    var r := TrimPrefix(s, "re: ");
    var bare := TrimPrefix(r, "fwd: ");
    var re := if "re: " <= s then "re: " else "";
    var fwd := if "fwd: " <= r then "fwd: " else "";
    assert EnvelopeOf(m) == m.envelope.value;
    assert SubjectOf(lower)(m) == bare;
    assert s == re + r && r == fwd + bare;
    assert re in ["", "re: "] && fwd in ["", "fwd: "];
    forall t, re', fwd' |
      && re' in ["", "re: "] && fwd' in ["", "fwd: "] && s == re' + (fwd' + t)
      && (re' == "" ==> !("re: " <= s)) && (fwd' == "" ==> !("fwd: " <= t))
      ensures t == bare
    {
      assert re' == "re: " ==> s[..4] == "re: " && s[4..] == fwd' + t;
      assert fwd' + t == r;
      assert fwd' == "fwd: " ==> r[..5] == "fwd: " && r[5..] == t;
    }
  }

  /** l may stand before m by what its first address is called; no address at all comes last. */
  ghost predicate AddressesInOrder(l: seq<Address>, m: seq<Address>) {
    m != [] ==>
      && l != []
      && AtMost(if l[0].name == "" then l[0].address else l[0].name, if m[0].name == "" then m[0].address else m[0].name)
  }

  /** Whether sorting by a field may leave a before b, said of the messages themselves. */
  ghost predicate InOrder(lower: Lower, f: Field, a: Info, b: Info) {
    match f
    case SortArrival => a.internalDate <= b.internalDate
    case SortSize => a.size <= b.size
    case SortRead => Seen in b.flags ==> Seen in a.flags
    case _ => a.envelope.Some? && b.envelope.Some? && EnvelopesInOrder(lower, f, a.envelope.value, b.envelope.value)
  }

  ghost predicate EnvelopesInOrder(lower: Lower, f: Field, a: Envelope, b: Envelope)
    requires !(f.SortArrival? || f.SortSize? || f.SortRead?)
  {
    match f
    case SortDate => a.date <= b.date
    case SortFrom => AddressesInOrder(a.from, b.from)
    case SortTo => AddressesInOrder(a.to, b.to)
    case SortCc => AddressesInOrder(a.cc, b.cc)
    case SortSubject => exists s, t :: BareSubject(lower, a.subject, s) && BareSubject(lower, b.subject, t) && AtMost(s, t)
  }

  /** By the first criterion, turned around if it is reversed; by the others where it ties. */
  ghost predicate NotAfter(lower: Lower, criteria: seq<Criterion>, a: Info, b: Info) {
    criteria == [] ||
    var f := criteria[0].field;
    var forwards, backwards := InOrder(lower, f, a, b), InOrder(lower, f, b, a);
    (if criteria[0].reverse then backwards else forwards) &&
    (forwards && backwards ==> NotAfter(lower, criteria[1..], a, b))
  }

  ghost predicate Tied(lower: Lower, criteria: seq<Criterion>, a: Info, b: Info) {
    NotAfter(lower, criteria, a, b) && NotAfter(lower, criteria, b, a)
  }

  /** The same messages, in the order asked for, those that tie in the order they were in. */
  ghost predicate SortedAsAsked(lower: Lower, criteria: seq<Criterion>, s: seq<Info>, t: seq<Info>) {
    && multiset(t) == multiset(s)
    && (forall i, j :: 0 <= i < j < |t| ==> NotAfter(lower, criteria, t[i], t[j]))
    && forall x :: x in s ==>
      Filter(t, (m: Info) => Tied(lower, criteria, x, m)) == Filter(s, (m: Info) => Tied(lower, criteria, x, m))
  }

  predicate Readable(f: Field, m: Info) {
    f.SortArrival? || f.SortSize? || f.SortRead? || m.envelope.Some?
  }

  lemma AddressesMean(l: seq<Address>, m: seq<Address>)
    ensures AddressesInOrder(l, m) <==> !AddressesLess(m, l)
  {
    if l != [] && m != [] {
      AtMostMeans(AddressName(l[0]), AddressName(m[0]));
    }
  }

  lemma SubjectsMean(lower: Lower, a: Info, b: Info)
    requires a.envelope.Some? && b.envelope.Some?
    ensures InOrder(lower, SortSubject, a, b) <==> AtMost(SubjectOf(lower)(a), SubjectOf(lower)(b))
  {
    BareSubjectIs(lower, a);
    BareSubjectIs(lower, b);
  }

  lemma FieldMeans(lower: Lower, f: Field, a: Info, b: Info)
    requires Readable(f, a) && Readable(f, b)
    ensures InOrder(lower, f, a, b) <==> !FieldLess(lower, f)(b, a)
  {
    match f
    case SortFrom => AddressesMean(FromOf(a), FromOf(b));
    case SortTo => AddressesMean(ToOf(a), ToOf(b));
    case SortCc => AddressesMean(CcOf(a), CcOf(b));
    case SortSubject =>
      SubjectsMean(lower, a, b);
      AtMostMeans(SubjectOf(lower)(a), SubjectOf(lower)(b));
    case SortArrival =>
      assert FieldLess(lower, f)(b, a) <==> ArrivalOf(b) < ArrivalOf(a);
    case SortDate =>
      assert DateOf(a) == a.envelope.value.date && DateOf(b) == b.envelope.value.date;
      assert FieldLess(lower, f)(b, a) <==> DateOf(b) < DateOf(a);
    case SortSize =>
      assert FieldLess(lower, f)(b, a) <==> SizeOf(b) < SizeOf(a);
    case SortRead =>
      assert FieldLess(lower, f)(b, a) <==> FlagLess(IsFlagged(Seen)(b), IsFlagged(Seen)(a));
  }

  /** The order the passes amount to is the one asked for. */
  lemma {:induction false} OrderMeans(lower: Lower, criteria: seq<Criterion>, a: Info, b: Info)
    requires forall c :: c in criteria ==> Readable(c.field, a) && Readable(c.field, b)
    ensures NotAfter(lower, criteria, a, b) <==> !Order(lower, criteria)(b, a)
  {
    if criteria != [] {
      assert criteria[0] in criteria;
      FieldMeans(lower, criteria[0].field, a, b);
      FieldMeans(lower, criteria[0].field, b, a);
      OrderMeans(lower, criteria[1..], a, b);
    }
  }

  lemma {:induction false} FilterSame<T>(s: seq<T>, p: T -> bool, q: T -> bool)
    requires forall x :: x in s ==> p(x) == q(x)
    ensures Filter(s, p) == Filter(s, q)
  {
    if s != [] {
      FilterSame(s[1..], p, q);
    }
  }

  lemma AllReadable(criteria: seq<Criterion>, s: seq<Info>)
    requires forall c :: c in criteria ==> !Faults(c.field, s)
    requires |s| > 1
    ensures forall c, m :: c in criteria && m in s ==> Readable(c.field, m)
  {
  }

  /** Without a fault the one stable sort by that order is what was asked for. */
  lemma StableSortIsAsked(lower: Lower, criteria: seq<Criterion>, s: seq<Info>)
    requires forall c :: c in criteria ==> !Faults(c.field, s)
    ensures SortedAsAsked(lower, criteria, s, StableSort(Order(lower, criteria), s))
  {
    var less := Order(lower, criteria);
    var t := StableSort(less, s);
    OrderIsOrder(lower, criteria);
    StableSortCorrect(less, s);
    SameMembers(s, t);
    assert |t| == |multiset(t)| == |multiset(s)| == |s|;
    if |s| > 1 {
      AllReadable(criteria, s);
      forall i, j | 0 <= i < j < |t| ensures NotAfter(lower, criteria, t[i], t[j]) {
        assert t[i] in t && t[j] in t;
        OrderMeans(lower, criteria, t[i], t[j]);
      }
      forall x | x in s
        ensures Filter(t, (m: Info) => Tied(lower, criteria, x, m)) == Filter(s, (m: Info) => Tied(lower, criteria, x, m))
      {
        TiedIsClass(lower, criteria, x, s);
        TiedIsClass(lower, criteria, x, t);
        assert Class(less, x, t) == Class(less, x, s);
      }
    } else {
      assert s == t by {
        if |s| == 1 {
          assert t[0] in s;
        }
      }
    }
  }

  lemma SameMembers(s: seq<Info>, t: seq<Info>)
    requires multiset(s) == multiset(t)
    ensures forall m :: m in s <==> m in t
  {
    forall m ensures m in s <==> m in t {
      assert m in multiset(s) <==> m in multiset(t);
    }
  }

  lemma TiedIsClass(lower: Lower, criteria: seq<Criterion>, x: Info, s: seq<Info>)
    requires forall c :: c in criteria ==> Readable(c.field, x)
    requires forall c, m :: c in criteria && m in s ==> Readable(c.field, m)
    ensures Filter(s, (m: Info) => Tied(lower, criteria, x, m)) == Class(Order(lower, criteria), x, s)
  {
    forall m | m in s ensures Tied(lower, criteria, x, m) == Like(Order(lower, criteria), x)(m) {
      OrderMeans(lower, criteria, x, m);
      OrderMeans(lower, criteria, m, x);
    }
    FilterSame(s, (m: Info) => Tied(lower, criteria, x, m), Like(Order(lower, criteria), x));
  }

  /** Whether sorting by one of the criteria faults. */
  predicate SomeFaults(criteria: seq<Criterion>, s: seq<Info>) {
    exists c :: c in criteria && Faults(c.field, s)
  }

  /**
   Some criterion reads the envelope of a message that has none: for its subject, or,
   when there are others to compare it with, for a date or addresses.
   */
  ghost predicate ReadsNil(criteria: seq<Criterion>, s: seq<Info>) {
    exists c, m ::
      && c in criteria && m in s && m.envelope.None?
      && c.field !in {SortArrival, SortRead, SortSize} && (c.field == SortSubject || |s| > 1)
  }

  lemma FaultsMean(criteria: seq<Criterion>, s: seq<Info>)
    ensures SomeFaults(criteria, s) <==> ReadsNil(criteria, s)
  {
    if SomeFaults(criteria, s) {
      var c :| c in criteria && Faults(c.field, s);
      var i :| 0 <= i < |s| && s[i].envelope.None?;
      assert s[i] in s;
    }
    if ReadsNil(criteria, s) {
      var c, m :|
        && c in criteria && m in s && m.envelope.None?
        && c.field !in {SortArrival, SortRead, SortSize} && (c.field == SortSubject || |s| > 1);
      var i :| 0 <= i < |s| && s[i] == m;
      assert Faults(c.field, s);
    }
  }

  lemma OneMoreFault(criteria: seq<Criterion>, i: nat, s: seq<Info>)
    requires i < |criteria| && !SomeFaults(criteria[i + 1..], s)
    ensures Faults(criteria[i].field, s) ==> SomeFaults(criteria, s)
    ensures !Faults(criteria[i].field, s) ==> !SomeFaults(criteria[i..], s)
  {
    assert criteria[i..] == [criteria[i]] + criteria[i + 1..];
  }

  lemma PassesPermute(lower: Lower, criteria: seq<Criterion>, s: seq<Info>)
    ensures multiset(Passes(lower, criteria, s)) == multiset(s)
  {
    PassesAreOneSort(lower, criteria, s);
  }

  lemma PassesAreAsked(lower: Lower, criteria: seq<Criterion>, s: seq<Info>)
    requires !SomeFaults(criteria, s)
    ensures Passes(lower, criteria, s) == StableSort(Order(lower, criteria), s)
    ensures SortedAsAsked(lower, criteria, s, Passes(lower, criteria, s))
  {
    PassesAreOneSort(lower, criteria, s);
    StableSortIsAsked(lower, criteria, s);
  }

  lemma OneCriterion(lower: Lower, c: Criterion, s: seq<Info>)
    requires !Faults(c.field, s)
    ensures SortedAsAsked(lower, [c], s, StableSort(CriterionLess(lower, c), s))
  {
    PassesAreOneSort(lower, [c], s);
    assert [c][1..] == [];
    assert Passes(lower, [c][1..], s) == s;
    StableSortIsAsked(lower, [c], s);
  }

  lemma OneMoreUid(s: seq<Info>, i: nat)
    requires i < |s|
    ensures ReversedUids(s[i..]) == ReversedUids(s[i + 1..]) + [s[i].uid]
  {
    assert s[i..][1..] == s[i + 1..];
  }

  lemma OneMorePass(lower: Lower, criteria: seq<Criterion>, i: nat, s: seq<Info>)
    requires i < |criteria|
    ensures Passes(lower, criteria[i..], s)
         == StableSort(CriterionLess(lower, criteria[i]), Passes(lower, criteria[i + 1..], s))
  {
    assert criteria[i..][1..] == criteria[i + 1..];
  }

  /**
   Sort.  It faults exactly if some criterion reads an envelope that is not there;
   otherwise the messages end up in the order asked for, with ties as they were, which
   is the one stable sort by the lexicographic order of the criteria, and the uids are
   that list's from last to first.
   */
  method Sort(lower: Lower, messageInfos: array<Info>, criteria: seq<Criterion>) returns (uids: seq<nat>, fault: bool)
    modifies messageInfos
    ensures fault <==> ReadsNil(criteria, old(messageInfos[..]))
    ensures !fault ==> messageInfos[..] == StableSort(Order(lower, criteria), old(messageInfos[..]))
    ensures !fault ==> SortedAsAsked(lower, criteria, old(messageInfos[..]), messageInfos[..])
    ensures !fault ==> AreUidsBackwards(uids, messageInfos[..])
  {
    uids := [];
    ghost var s := messageInfos[..];
    fault := SortPasses(lower, messageInfos, criteria);
    FaultsMean(criteria, s);
    if !fault {
      PassesAreAsked(lower, criteria, s);
      uids := UidsBackwards(messageInfos);
    }
  }

  /** The first loop of Sort. */
  method SortPasses(lower: Lower, messageInfos: array<Info>, criteria: seq<Criterion>) returns (fault: bool)
    modifies messageInfos
    ensures fault <==> SomeFaults(criteria, old(messageInfos[..]))
    ensures !fault ==> messageInfos[..] == Passes(lower, criteria, old(messageInfos[..]))
  {
    ghost var s := messageInfos[..];
    var i := |criteria| - 1;
    while i >= 0
      invariant -1 <= i < |criteria|
      invariant messageInfos[..] == Passes(lower, criteria[i + 1..], s)
      invariant !SomeFaults(criteria[i + 1..], s)
    {
      PassesPermute(lower, criteria[i + 1..], s);
      FaultsPermuted(criteria[i].field, messageInfos[..], s);
      OneMoreFault(criteria, i, s);
      fault := SortByCriterion(lower, messageInfos, criteria[i]);
      if fault {
        return;
      }
      OneMorePass(lower, criteria, i, s);
      i := i - 1;
    }
    assert criteria[0..] == criteria;
    fault := false;
  }

  /** The uids of s from last to first. */
  ghost predicate AreUidsBackwards(uids: seq<nat>, s: seq<Info>) {
    |uids| == |s| && forall k :: 0 <= k < |s| ==> uids[k] == s[|s| - 1 - k].uid
  }

  lemma ReversedUidsAre(s: seq<Info>)
    ensures AreUidsBackwards(ReversedUids(s), s)
  {
    assert |ReversedUids(s)| == |s| by {
      if s != [] {
        ReversedUidAt(s, 0);
      }
    }
    forall k | 0 <= k < |s| ensures ReversedUids(s)[k] == s[|s| - 1 - k].uid {
      ReversedUidAt(s, k);
    }
  }

  /** The second loop of Sort. */
  method UidsBackwards(messageInfos: array<Info>) returns (uids: seq<nat>)
    ensures uids == ReversedUids(messageInfos[..])
    ensures AreUidsBackwards(uids, messageInfos[..])
  {
    uids := [];
    var i := messageInfos.Length - 1;
    while i >= 0
      invariant -1 <= i < messageInfos.Length
      invariant uids == ReversedUids(messageInfos[..][i + 1..])
    {
      OneMoreUid(messageInfos[..], i);
      uids := uids + [messageInfos[i].uid];
      i := i - 1;
    }
    assert messageInfos[..][0..] == messageInfos[..];
    ReversedUidsAre(messageInfos[..]);
  }
}
