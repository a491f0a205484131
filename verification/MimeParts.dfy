/**
 Parts of a MIME message by number: the structure of an entity (worker/lib/parse.go), the
 part an index names in it (models/models.go), the first plain text in it
 (lib/structure_helpers.go), and the part of the entity that the same index fetches.
 Part numbers are those of section 6.4.5 of RFC 3501.
 */
module MimeParts {
  import opened Collections

  datatype Result<+T> = Ok(value: T) | Err

  /** Parameters of a header. */
  type Params = map<string, string>

  /** A missing disposition is an empty one without parameters. */
  datatype Body = Body(mime: string, sub: string, params: Params, description: string, encoding: string,
                       disposition: string, dispositionParams: Params, parts: seq<Body>)

  // The part an index names

  function PartAtIndex(bs: Body, index: seq<int>): Result<Body>
    decreases |index|
  {
    if index == [] then Ok(bs)
    else if index[0] - 1 < 0 then Err
    else if bs.parts == [] then
      if |index| == 1 && index[0] == 1 then Ok(bs) else Err
    else if index[0] > |bs.parts| then Err
    else PartAtIndex(bs.parts[index[0] - 1], index[1..])
  }

  // The first plain text

  /** strings.ToLower. */
  type Lower = string -> string

  predicate IsPlain(b: Body, lower: Lower) {
    lower(b.mime) == "text" && lower(b.sub) == "plain"
  }

  predicate IsMultipart(b: Body, lower: Lower) {
    lower(b.mime) == "multipart"
  }

  function FindPlaintext(bs: Body, path: seq<int>, lower: Lower): Option<seq<int>>
    decreases bs, 1, 0
  {
    FindFrom(bs, 0, path, lower)
  }

  /** The scan from the i-th part on. */
  function FindFrom(bs: Body, i: nat, path: seq<int>, lower: Lower): Option<seq<int>>
    requires i <= |bs.parts|
    decreases bs, 0, |bs.parts| - i
  {
    if i == |bs.parts| then None
    else
      var part, cur := bs.parts[i], path + [i + 1];
      if IsPlain(part, lower) then Some(cur)
      else
        var deeper := if IsMultipart(part, lower) then FindPlaintext(part, cur, lower) else None;
        if deeper.Some? then deeper else FindFrom(bs, i + 1, path, lower)
  }

  /** A path through multiparts to a plain text; the root may be of any type. */
  predicate PlainPath(bs: Body, p: seq<int>, lower: Lower)
    decreases |p|
  {
    && p != []
    && 1 <= p[0] <= |bs.parts|
    && var part := bs.parts[p[0] - 1];
       if |p| == 1 then IsPlain(part, lower) else IsMultipart(part, lower) && PlainPath(part, p[1..], lower)
  }

  /** The order in which a preorder walk meets two paths. */
  predicate Earlier(p: seq<int>, q: seq<int>) {
    q != [] && (p == [] || p[0] < q[0] || (p[0] == q[0] && Earlier(p[1..], q[1..])))
  }

  /** p is the first path to a plain text through the i-th or a later part. */
  ghost predicate First(bs: Body, i: nat, p: seq<int>, lower: Lower) {
    && PlainPath(bs, p, lower) && p[0] > i
    && forall q :: PlainPath(bs, q, lower) && q[0] > i && q != p ==> Earlier(p, q)
  }

  ghost predicate NonePlain(bs: Body, i: nat, lower: Lower) {
    forall q :: PlainPath(bs, q, lower) ==> q[0] <= i
  }

  /** What the scan promises of its answer. */
  ghost predicate Answers(r: Option<seq<int>>, bs: Body, i: nat, path: seq<int>, lower: Lower) {
    match r
    case None => NonePlain(bs, i, lower)
    case Some(full) => exists p :: full == path + p && First(bs, i, p, lower)
  }

  lemma {:induction false} FindFromFirst(bs: Body, i: nat, path: seq<int>, lower: Lower)
    requires i <= |bs.parts|
    ensures Answers(FindFrom(bs, i, path, lower), bs, i, path, lower)
    decreases bs, |bs.parts| - i
  {
    if i < |bs.parts| {
      var part, cur := bs.parts[i], path + [i + 1];
      var deeper := if IsMultipart(part, lower) then FindPlaintext(part, cur, lower) else None;
      if IsMultipart(part, lower) {
        FindFromFirst(part, 0, cur, lower);
      }
      if IsPlain(part, lower) {
        assert First(bs, i, [i + 1], lower);
      } else if deeper.Some? {
        FirstInside(bs, i, path, deeper, lower);
      } else {
        FindFromFirst(bs, i + 1, path, lower);
        FirstLater(bs, i, path, FindFrom(bs, i + 1, path, lower), lower);
      }
    }
  }

  lemma FirstInside(bs: Body, i: nat, path: seq<int>, r: Option<seq<int>>, lower: Lower)
    requires i < |bs.parts| && IsMultipart(bs.parts[i], lower)
    requires r.Some? && Answers(r, bs.parts[i], 0, path + [i + 1], lower)
    ensures Answers(r, bs, i, path, lower)
  {
    var p :| r.value == path + [i + 1] + p && First(bs.parts[i], 0, p, lower);
    var full := [i + 1] + p;
    assert full[1..] == p && r.value == path + full;
    forall q | PlainPath(bs, q, lower) && q[0] > i && q != full ensures Earlier(full, q) {
      assert q == [q[0]] + q[1..];
      assert q[0] == i + 1 ==> PlainPath(bs.parts[i], q[1..], lower);
    }
    assert First(bs, i, full, lower);
  }

  lemma FirstLater(bs: Body, i: nat, path: seq<int>, r: Option<seq<int>>, lower: Lower)
    requires i < |bs.parts| && !IsPlain(bs.parts[i], lower)
    requires IsMultipart(bs.parts[i], lower) ==> NonePlain(bs.parts[i], 0, lower)
    requires Answers(r, bs, i + 1, path, lower)
    ensures Answers(r, bs, i, path, lower)
  {
    assert forall q :: PlainPath(bs, q, lower) ==> q[0] != i + 1 by {
      forall q: seq<int> | q != [] && q[0] == i + 1 ensures !PlainPath(bs, q, lower) {
        NotThrough(bs, i, q, lower);
      }
    }
    if r.Some? {
      var p :| r.value == path + p && First(bs, i + 1, p, lower);
      assert First(bs, i, p, lower);
    }
  }

  lemma NotThrough(bs: Body, i: nat, q: seq<int>, lower: Lower)
    requires i < |bs.parts| && !IsPlain(bs.parts[i], lower) && q != [] && q[0] == i + 1
    requires IsMultipart(bs.parts[i], lower) ==> NonePlain(bs.parts[i], 0, lower)
    ensures !PlainPath(bs, q, lower)
  {
    if |q| > 1 && IsMultipart(bs.parts[i], lower) {
      assert !PlainPath(bs.parts[i], q[1..], lower);
    }
  }

  /** The first plain text in preorder is found, and nothing only if there is none. */
  lemma FindsFirstPlaintext(bs: Body, lower: Lower)
    ensures match FindPlaintext(bs, [], lower)
            case None => forall q :: !PlainPath(bs, q, lower)
            case Some(p) =>
              && PlainPath(bs, p, lower)
              && (forall q :: PlainPath(bs, q, lower) && q != p ==> Earlier(p, q))
              && PartAtIndex(bs, p).Ok? && IsPlain(PartAtIndex(bs, p).value, lower)
  {
    FindFromFirst(bs, 0, [], lower);
    var r := FindPlaintext(bs, [], lower);
    if r.Some? {
      var p :| r.value == [] + p && First(bs, 0, p, lower);
      assert r.value == p;
      PlainPathPart(bs, p, lower);
    }
  }

  lemma {:induction false} PlainPathPart(bs: Body, p: seq<int>, lower: Lower)
    requires PlainPath(bs, p, lower)
    ensures PartAtIndex(bs, p).Ok? && IsPlain(PartAtIndex(bs, p).value, lower)
    decreases |p|
  {
    if |p| > 1 {
      PlainPathPart(bs.parts[p[0] - 1], p[1..], lower);
    }
  }

  // Entities

  /** A disposition header may be missing, readable, or not. */
  datatype Disposition = Absent | Given(value: string, params: Params) | Bad

  /** What the reader of a multipart yields: parts, then the end or an error. */
  datatype Multipart = Multipart(parts: seq<Entity>, broken: bool)

  datatype Entity = Entity(contentType: Option<string>, params: Params, description: string, encoding: string,
                           disposition: Disposition, multipart: Option<Multipart>)

  /** The text before the first '/', and that after it if there is only one. */
  function SplitMIME(m: string): (string, string) {
    var n := Slash(m, 0);
    if n == |m| then (m, "")
    else (m[..n], if Slash(m, n + 1) == |m| then m[n + 1..] else "")
  }

  function Slash(m: string, i: nat): (n: nat)
    requires i <= |m|
    ensures i <= n <= |m|
    decreases |m| - i
  {
    if i == |m| || m[i] == '/' then i else Slash(m, i + 1)
  }

  function Structure(e: Entity): Result<Body>
    decreases e
  {
    if e.contentType.None? || e.disposition.Bad? then Err
    else if e.multipart.None? then Ok(Described(e, []))
    else
      var m := e.multipart.value;
      if m.broken || exists i :: 0 <= i < |m.parts| && Structure(m.parts[i]).Err? then Err
      else Ok(Described(e, seq(|m.parts|, i requires 0 <= i < |m.parts| => Structure(m.parts[i]).value)))
  }

  function Described(e: Entity, parts: seq<Body>): Body
    requires e.contentType.Some?
  {
    var (mime, sub) := SplitMIME(e.contentType.value);
    var (disposition, params) := if e.disposition.Given? then (e.disposition.value, e.disposition.params) else ("", map[]);
    Body(mime, sub, e.params, e.description, e.encoding, disposition, params, parts)
  }

  method ParseEntityStructure(e: Entity) returns (r: Result<Body>)
    ensures r == Structure(e)
    decreases e
  {
    if e.contentType.None? || e.disposition.Bad? {
      return Err;
    }
    var body := Described(e, []);
    if e.multipart.Some? {
      var m := e.multipart.value;
      var i := 0;
      while i < |m.parts|
        invariant 0 <= i <= |m.parts|
        invariant forall k :: 0 <= k < i ==> Structure(m.parts[k]).Ok?
        invariant |body.parts| == i && body == Described(e, body.parts)
        invariant forall k :: 0 <= k < i ==> body.parts[k] == Structure(m.parts[k]).value
      {
        var ps := ParseEntityStructure(m.parts[i]);
        if ps.Err? {
          return Err;
        }
        body := body.(parts := body.parts + [ps.value]);
        i := i + 1;
      }
      if m.broken {
        return Err;
      }
      assert body.parts == Structure(e).value.parts;
    }
    return Ok(body);
  }

  function Fetched(e: Entity, index: seq<int>): Result<Entity>
    decreases |index|
  {
    if index == [] then Ok(e)
    else if e.multipart.None? || !(1 <= index[0] <= |e.multipart.value.parts|) then Err
    else Fetched(e.multipart.value.parts[index[0] - 1], index[1..])
  }

  /** The part whose text is read; a number the reader does not get to ends in its error. */
  method FetchEntityPart(e: Entity, index: seq<int>) returns (r: Result<Entity>)
    ensures r == Fetched(e, index)
    decreases |index|
  {
    if index == [] {
      return Ok(e);
    }
    if e.multipart.Some? {
      var parts := e.multipart.value.parts;
      var idx := 0;
      while true
        invariant 0 <= idx <= |parts|
        invariant !(1 <= index[0] <= idx)
        decreases |parts| - idx
      {
        idx := idx + 1;
        if idx > |parts| {
          return Err;
        }
        if idx == index[0] {
          if |index| == 1 {
            return Ok(parts[idx - 1]);
          }
          r := FetchEntityPart(parts[idx - 1], index[1..]);
          return;
        }
      }
    }
    return Err;
  }

  /** Not a multipart, or one without parts. */
  predicate IsLeaf(e: Entity) {
    e.multipart.None? || e.multipart.value.parts == []
  }

  /** The parent of a path. */
  function Parent(index: seq<int>): seq<int>
    requires index != []
  {
    index[..|index| - 1]
  }

  lemma PartStructure(e: Entity, i: nat)
    requires Structure(e).Ok? && i < |Structure(e).value.parts|
    ensures e.multipart.Some? && |e.multipart.value.parts| == |Structure(e).value.parts|
    ensures Structure(e.multipart.value.parts[i]) == Ok(Structure(e).value.parts[i])
  {
  }

  /** What an index should name: what it fetches, or the part without parts it has an extra 1 below. */
  function Named(e: Entity, index: seq<int>): Result<Body> {
    if Fetched(e, index).Ok? then Structure(Fetched(e, index).value)
    else if && index != [] && index[|index| - 1] == 1
            && Fetched(e, Parent(index)).Ok? && IsLeaf(Fetched(e, Parent(index)).value)
    then Structure(Fetched(e, Parent(index)).value)
    else Err
  }

  lemma NamedBelow(e: Entity, index: seq<int>)
    requires |index| > 1 && e.multipart.Some? && 1 <= index[0] <= |e.multipart.value.parts|
    ensures Named(e, index) == Named(e.multipart.value.parts[index[0] - 1], index[1..])
  {
    assert Parent(index)[1..] == Parent(index[1..]);
    assert index[1..][|index| - 2] == index[|index| - 1];
  }

  lemma NamedNowhere(e: Entity, index: seq<int>)
    requires |index| > 1 && (e.multipart.None? || !(1 <= index[0] <= |e.multipart.value.parts|))
    ensures Named(e, index) == Err
  {
    assert Fetched(e, Parent(index)).Err?;
  }

  /**
   The structure of a message names by each index what fetching reads for it; beyond that
   only a 1 below a part without parts names that part.
   */
  lemma {:induction false} NamesWhatIsFetched(e: Entity, index: seq<int>)
    requires Structure(e).Ok?
    ensures PartAtIndex(Structure(e).value, index) == Named(e, index)
    decreases |index|
  {
    var bs := Structure(e).value;
    if index != [] && 1 <= index[0] <= |bs.parts| {
      PartStructure(e, index[0] - 1);
      NamesWhatIsFetched(e.multipart.value.parts[index[0] - 1], index[1..]);
      if |index| > 1 {
        NamedBelow(e, index);
      }
    } else if |index| > 1 {
      NamedNowhere(e, index);
    }
  }

  // What the structure says of an entity

  /** a is all of s before a '/', or all of s. */
  ghost predicate IsMain(s: string, a: string) {
    '/' !in a && (s == a || a + "/" <= s)
  }

  /** The two sides of the only '/'; without a side after it there is no minor type, nor with several. */
  ghost predicate IsType(s: string, mime: string, sub: string) {
    && IsMain(s, mime)
    && sub == if s != mime && '/' !in s[|mime| + 1..] then s[|mime| + 1..] else ""
  }

  lemma {:induction false} SlashIs(m: string, i: nat)
    requires i <= |m|
    ensures '/' !in m[i..Slash(m, i)]
    ensures Slash(m, i) < |m| ==> m[Slash(m, i)] == '/'
    ensures Slash(m, i) == |m| <==> '/' !in m[i..]
    decreases |m| - i
  {
    if i < |m| && m[i] != '/' {
      SlashIs(m, i + 1);
      assert m[i..] == [m[i]] + m[i + 1..];
      assert m[i..Slash(m, i)] == [m[i]] + m[i + 1..Slash(m, i)];
    } else if i < |m| {
      assert m[i..][0] == '/';
    }
  }

  lemma MainIs(s: string, a: string)
    ensures IsMain(s, a) <==> a == s[..Slash(s, 0)]
  {
    var n := Slash(s, 0);
    SlashIs(s, 0);
    assert s[0..n] == s[..n] && s[0..] == s;
    if n < |s| {
      assert s[..n] + "/" == s[..n + 1] <= s;
    }
    if IsMain(s, a) && s != a {
      assert (a + "/")[|a|] == '/' && (a + "/")[..|a|] == a;
      assert s[|a|] == '/' && a == s[..|a|];
      FirstSlash(s, |a|, n);
    }
  }

  lemma FirstSlash(s: string, i: nat, n: nat)
    requires i < |s| && s[i] == '/' && '/' !in s[..i]
    requires n <= |s| && '/' !in s[..n] && (n < |s| ==> s[n] == '/')
    ensures i == n
  {
    if i < n {
      InPrefix(s, i, n);
    } else if n < i {
      InPrefix(s, n, i);
    }
  }

  lemma TypeIsSplit(s: string)
    ensures forall mime, sub :: IsType(s, mime, sub) <==> (mime, sub) == SplitMIME(s)
  {
    var n := Slash(s, 0);
    assert s[..|s|] == s;
    if n < |s| {
      SlashIs(s, n + 1);
    }
    forall mime, sub ensures IsType(s, mime, sub) <==> (mime, sub) == SplitMIME(s) {
      MainIs(s, mime);
    }
  }

  /** The headers of the entity are those of the body; a disposition that is not given is empty. */
  ghost predicate Describes(b: Body, e: Entity) {
    && e.contentType.Some? && IsType(e.contentType.value, b.mime, b.sub)
    && b.params == e.params && b.description == e.description && b.encoding == e.encoding
    && match e.disposition
       case Absent => b.disposition == "" && b.dispositionParams == map[]
       case Given(value, params) => b.disposition == value && b.dispositionParams == params
       case Bad => false
  }

  /**
   Wherever an index leads, the structure there describes the entity there: by its headers,
   and with as many parts.
   */
  lemma StructureDescribes(e: Entity, index: seq<int>)
    requires Structure(e).Ok? && Fetched(e, index).Ok?
    ensures PartAtIndex(Structure(e).value, index).Ok?
    ensures var b, f := PartAtIndex(Structure(e).value, index).value, Fetched(e, index).value;
      Describes(b, f) && |b.parts| == if f.multipart.Some? then |f.multipart.value.parts| else 0
  {
    NamesWhatIsFetched(e, index);
    StructureBelow(e, index);
    TypeIsSplit(Fetched(e, index).value.contentType.value);
  }

  lemma {:induction false} StructureBelow(e: Entity, index: seq<int>)
    requires Structure(e).Ok? && Fetched(e, index).Ok?
    ensures Structure(Fetched(e, index).value).Ok?
    decreases |index|
  {
    if index != [] {
      PartStructure(e, index[0] - 1);
      StructureBelow(e.multipart.value.parts[index[0] - 1], index[1..]);
    }
  }

  // The first plain text of an entity

  /** The content type is text/plain, in whatever case. */
  ghost predicate IsPlainEntity(e: Entity, lower: Lower) {
    e.contentType.Some? &&
    exists a, b :: IsType(e.contentType.value, a, b) && lower(a) == "text" && lower(b) == "plain"
  }

  ghost predicate IsMultipartEntity(e: Entity, lower: Lower) {
    e.contentType.Some? && exists a :: IsMain(e.contentType.value, a) && lower(a) == "multipart"
  }

  /** A path to a plain text through multiparts. */
  ghost predicate PlainEntityPath(e: Entity, p: seq<int>, lower: Lower)
    decreases |p|
  {
    && p != [] && e.multipart.Some? && 1 <= p[0] <= |e.multipart.value.parts|
    && var part := e.multipart.value.parts[p[0] - 1];
       if |p| == 1 then IsPlainEntity(part, lower) else IsMultipartEntity(part, lower) && PlainEntityPath(part, p[1..], lower)
  }

  lemma TypesAgree(e: Entity, lower: Lower)
    requires Structure(e).Ok?
    ensures IsPlainEntity(e, lower) <==> IsPlain(Structure(e).value, lower)
    ensures IsMultipartEntity(e, lower) <==> IsMultipart(Structure(e).value, lower)
  {
    var b := Structure(e).value;
    TypeIsSplit(e.contentType.value);
    assert IsType(e.contentType.value, b.mime, b.sub);
    forall a ensures IsMain(e.contentType.value, a) <==> a == b.mime {
      MainIs(e.contentType.value, a);
      MainIs(e.contentType.value, b.mime);
    }
  }

  lemma {:induction false} PathsAgree(e: Entity, p: seq<int>, lower: Lower)
    requires Structure(e).Ok?
    ensures PlainEntityPath(e, p, lower) <==> PlainPath(Structure(e).value, p, lower)
    ensures PlainEntityPath(e, p, lower) ==> Fetched(e, p).Ok? && IsPlainEntity(Fetched(e, p).value, lower)
    decreases |p|
  {
    var bs := Structure(e).value;
    if p != [] && 1 <= p[0] <= |bs.parts| {
      PartStructure(e, p[0] - 1);
      var part := e.multipart.value.parts[p[0] - 1];
      TypesAgree(part, lower);
      if |p| > 1 {
        PathsAgree(part, p[1..], lower);
      }
    }
  }

  /**
   The plain text found is fetched by its path: an entity of type text/plain, the first
   one of the message in preorder; and nothing is found only if there is none.
   */
  lemma PlaintextIsFetched(e: Entity, lower: Lower)
    requires Structure(e).Ok?
    ensures match FindPlaintext(Structure(e).value, [], lower)
            case None => forall q :: !PlainEntityPath(e, q, lower)
            case Some(p) =>
              && PlainEntityPath(e, p, lower)
              && (forall q :: PlainEntityPath(e, q, lower) && q != p ==> Earlier(p, q))
              && Fetched(e, p).Ok? && IsPlainEntity(Fetched(e, p).value, lower)
  {
    FindsFirstPlaintext(Structure(e).value, lower);
    forall q ensures PlainEntityPath(e, q, lower) <==> PlainPath(Structure(e).value, q, lower) {
      PathsAgree(e, q, lower);
    }
    var r := FindPlaintext(Structure(e).value, [], lower);
    if r.Some? {
      PathsAgree(e, r.value, lower);
    }
  }

  /** Two names with a '/' between them are the two types; so text/plain is plain text. */
  lemma MajorAndMinor(e: Entity, major: string, minor: string, lower: Lower)
    requires Structure(e).Ok? && e.contentType == Option.Some(major + "/" + minor)
    requires '/' !in major && '/' !in minor
    ensures Structure(e).value.mime == major && Structure(e).value.sub == minor
    ensures lower(major) == "text" && lower(minor) == "plain" ==> IsPlain(Structure(e).value, lower)
  {
    var s := major + "/" + minor;
    TypeIsSplit(s);
    assert s[..|major| + 1] == major + "/" && s[|major| + 1..] == minor;
    assert IsType(s, major, minor);
  }
}
