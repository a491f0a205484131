/**
 Key bindings: the search for the keys typed so far (config/bindings.go), and the decision
 taken on every key from the bindings of the view and the global ones (Event in
 widgets/nyat.go).
 */
module Bindings {
  /** tcell's code for a key that stands for a character. */
  const KEY_RUNE := 256

  datatype KeyStroke = KeyStroke(key: int, rune: int)

  datatype Binding = Binding(output: seq<KeyStroke>, input: seq<KeyStroke>)

  datatype Found = Found(at: nat) | Incomplete | NotFound

  /** The character only matters where the key stands for one. */
  predicate SameStroke(a: KeyStroke, b: KeyStroke) {
    a.key == b.key && (a.key == KEY_RUNE ==> a.rune == b.rune)
  }

  predicate StartsWith(s: seq<KeyStroke>, input: seq<KeyStroke>) {
    |input| <= |s| && forall i :: 0 <= i < |input| ==> SameStroke(input[i], s[i])
  }

  predicate Equals(b: Binding, input: seq<KeyStroke>) {
    |b.input| == |input| && StartsWith(b.input, input)
  }

  predicate Extends(b: Binding, input: seq<KeyStroke>) {
    |b.input| > |input| && StartsWith(b.input, input)
  }

  ghost predicate NoneEquals(bs: seq<Binding>, input: seq<KeyStroke>) {
    forall j :: 0 <= j < |bs| ==> !Equals(bs[j], input)
  }

  ghost predicate SomeExtends(bs: seq<Binding>, input: seq<KeyStroke>) {
    exists j :: 0 <= j < |bs| && Extends(bs[j], input)
  }

  /** What the search promises of its answer; there is just one that meets it. */
  ghost predicate Answers(r: Found, bs: seq<Binding>, input: seq<KeyStroke>) {
    match r
    case Found(i) => i < |bs| && Equals(bs[i], input) && forall j :: 0 <= j < i ==> !Equals(bs[j], input)
    case Incomplete => NoneEquals(bs, input) && SomeExtends(bs, input)
    case NotFound => NoneEquals(bs, input) && !SomeExtends(bs, input)
  }

  lemma AnswerIsUnique(r: Found, q: Found, bs: seq<Binding>, input: seq<KeyStroke>)
    requires Answers(r, bs, input) && Answers(q, bs, input)
    ensures r == q
  {
  }

  /** Two bindings of one character each, with different characters, are found by different keys. */
  lemma CharactersDiffer(a: Binding, b: Binding, c: int, d: int, stroke: KeyStroke)
    requires c != d && a.input == [KeyStroke(KEY_RUNE, c)] && b.input == [KeyStroke(KEY_RUNE, d)]
    requires stroke.key == KEY_RUNE
    ensures Answers(Found(0), [a, b], [stroke]) <==> stroke.rune == c
    ensures Answers(Found(1), [a, b], [stroke]) <==> stroke.rune == d
    ensures Answers(NotFound, [a, b], [stroke]) <==> stroke.rune != c && stroke.rune != d
  {
    var bs := [a, b];
    assert bs[0] == a && bs[1] == b;
    assert Equals(a, [stroke]) <==> stroke.rune == c by {
      assert SameStroke([stroke][0], a.input[0]) <==> stroke.rune == c;
    }
    assert Equals(b, [stroke]) <==> stroke.rune == d by {
      assert SameStroke([stroke][0], b.input[0]) <==> stroke.rune == d;
    }
  }

  /** A key that stands for no character is the same whatever character comes with it. */
  lemma NamedKeysIgnoreCharacters(b: Binding, key: int, c: int, d: int)
    requires key != KEY_RUNE && b.input == [KeyStroke(key, c)]
    ensures Answers(Found(0), [b], [KeyStroke(key, d)])
    ensures forall other :: other != key ==> Answers(NotFound, [b], [KeyStroke(other, c)])
  {
    assert SameStroke([KeyStroke(key, d)][0], b.input[0]);
    forall other | other != key ensures Answers(NotFound, [b], [KeyStroke(other, c)]) {
      assert !SameStroke([KeyStroke(other, c)][0], b.input[0]);
    }
  }

  class KeyBindings {
    var bindings: seq<Binding>
    var globals: bool
    var exKey: KeyStroke

    constructor ()
      ensures bindings == [] && globals && exKey == KeyStroke(KEY_RUNE, ':' as int)
    {
      bindings, globals, exKey := [], true, KeyStroke(KEY_RUNE, ':' as int);
    }

    method Add(b: Binding)
      modifies this`bindings
      ensures bindings == old(bindings) + [b]
    {
      bindings := bindings + [b];
    }

    method GetBinding(input: seq<KeyStroke>) returns (r: Found, output: seq<KeyStroke>)
      ensures Answers(r, bindings, input)
      ensures output == if r.Found? then bindings[r.at].output else []
    {
      var incomplete := false;
      for n := 0 to |bindings|
        invariant NoneEquals(bindings[..n], input)
        invariant incomplete <==> SomeExtends(bindings[..n], input)
      {
        var binding := bindings[n];
        assert bindings[..n + 1] == bindings[..n] + [binding];
        var same := MatchStrokes(binding, input);
        if same && |binding.input| == |input| {
          return Found(n), binding.output;
        }
        if same {
          incomplete := true;
          assert Extends(bindings[..n + 1][n], input);
        }
        assert SomeExtends(bindings[..n + 1], input) <==> SomeExtends(bindings[..n], input) || Extends(binding, input) by {
          forall j | 0 <= j < n ensures bindings[..n][j] == bindings[..n + 1][j] {
          }
          assert bindings[..n + 1][n] == binding;
        }
      }
      assert bindings[..|bindings|] == bindings;
      return if incomplete then Incomplete else NotFound, [];
    }
  }

  method MatchStrokes(binding: Binding, input: seq<KeyStroke>) returns (same: bool)
    ensures same <==> StartsWith(binding.input, input)
  {
    if |binding.input| < |input| {
      return false;
    }
    for i := 0 to |input|
      invariant forall k :: 0 <= k < i ==> SameStroke(input[k], binding.input[k])
    {
      if input[i].key != binding.input[i].key {
        return false;
      }
      if input[i].key == KEY_RUNE && input[i].rune != binding.input[i].rune {
        return false;
      }
    }
    return true;
  }

  ghost function AllBindings(groups: seq<KeyBindings>): seq<Binding>
    reads groups
  {
    if groups == [] then []
    else AllBindings(groups[..|groups| - 1]) + groups[|groups| - 1].bindings
  }

  /** The first group decides on the ex key and on the global bindings; there must be one. */
  method MergeBindings(groups: seq<KeyBindings>) returns (merged: KeyBindings)
    requires groups != []
    ensures fresh(merged)
    ensures merged.bindings == AllBindings(groups)
    ensures merged.exKey == groups[0].exKey && merged.globals == groups[0].globals
  {
    merged := new KeyBindings();
    for n := 0 to |groups|
      invariant fresh(merged) && merged.bindings == AllBindings(groups[..n])
    {
      assert groups[..n + 1][..n] == groups[..n];
      merged.bindings := merged.bindings + groups[n].bindings;
    }
    assert groups[..|groups|] == groups;
    merged.exKey := groups[0].exKey;
    merged.globals := groups[0].globals;
  }

  // The search as a function

  function Lookup(bs: seq<Binding>, input: seq<KeyStroke>): (r: Found)
    ensures Answers(r, bs, input)
  {
    if bs == [] then NotFound
    else
      assert bs == bs[..|bs| - 1] + [bs[|bs| - 1]];
      var r := Lookup(bs[..|bs| - 1], input);
      Extended(bs[..|bs| - 1], bs[|bs| - 1], input);
      if r.Found? then r
      else if Equals(bs[|bs| - 1], input) then Found(|bs| - 1)
      else if Extends(bs[|bs| - 1], input) then Incomplete else r
  }

  lemma Extended(bs: seq<Binding>, b: Binding, input: seq<KeyStroke>)
    ensures SomeExtends(bs + [b], input) <==> SomeExtends(bs, input) || Extends(b, input)
    ensures NoneEquals(bs + [b], input) <==> NoneEquals(bs, input) && !Equals(b, input)
  {
    var all := bs + [b];
    forall j | 0 <= j < |bs| ensures all[j] == bs[j] {
    }
    assert all[|bs|] == b;
  }

  // Deciding on a key

  datatype Decision = Simulate(strokes: seq<KeyStroke>) | Wait | ExCommand | Forward

  /** Bindings of the view first, then the global ones if the view lets them in. */
  class Keyboard {
    var pendingKeys: seq<KeyStroke>
    var simulating: int

    /** A key event up to its effect: the strokes to simulate are handed back. */
    method Event(stroke: KeyStroke, bindings: KeyBindings, global: KeyBindings) returns (d: Decision)
      modifies this`pendingKeys
      ensures var keys := old(pendingKeys) + [stroke];
              var merged := Merged(bindings, global);
              match Lookup(merged, keys)
              case Found(i) => d == Simulate(merged[i].output) && pendingKeys == []
              case Incomplete => d == Wait && pendingKeys == keys
              case NotFound =>
                && pendingKeys == []
                && d == if stroke == (if simulating > 0 then global.exKey else bindings.exKey) then ExCommand else Forward
    {
      pendingKeys := pendingKeys + [stroke];
      var incomplete := false;
      var result, strokes := bindings.GetBinding(pendingKeys);
      LookupMerged(bindings, global, pendingKeys, result);
      if result.Found? {
        pendingKeys := [];
        return Simulate(strokes);
      }
      incomplete := result.Incomplete?;
      if bindings.globals {
        result, strokes := global.GetBinding(pendingKeys);
        AnswerIsUnique(result, Lookup(global.bindings, pendingKeys), global.bindings, pendingKeys);
        if result.Found? {
          pendingKeys := [];
          return Simulate(strokes);
        }
        incomplete := incomplete || result.Incomplete?;
      }
      if !incomplete {
        pendingKeys := [];
        var exKey := bindings.exKey;
        if simulating > 0 {
          exKey := global.exKey;
        }
        return if stroke.key == exKey.key && stroke.rune == exKey.rune then ExCommand else Forward;
      }
      return Wait;
    }
  }

  /** The bindings in force: those of the view, then the global ones if it lets them in. */
  ghost function Merged(bindings: KeyBindings, global: KeyBindings): seq<Binding>
    reads bindings, global
  {
    if bindings.globals then bindings.bindings + global.bindings else bindings.bindings
  }

  lemma LookupMerged(bindings: KeyBindings, global: KeyBindings, keys: seq<KeyStroke>, r: Found)
    requires Answers(r, bindings.bindings, keys)
    ensures Lookup(Merged(bindings, global), keys) ==
            if bindings.globals then Both(r, Lookup(global.bindings, keys), |bindings.bindings|) else r
    ensures r.Found? ==> Merged(bindings, global)[r.at] == bindings.bindings[r.at]
  {
    AnswerIsUnique(r, Lookup(bindings.bindings, keys), bindings.bindings, keys);
    LookupInBoth(bindings.bindings, global.bindings, keys);
  }

  /** The answer for two lists from the answers for each. */
  function Both(a: Found, b: Found, n: nat): Found {
    if a.Found? then a
    else if b.Found? then Found(n + b.at)
    else if a.Incomplete? || b.Incomplete? then Incomplete else NotFound
  }

  lemma {:induction false} SomeExtendsAppend(first: seq<Binding>, second: seq<Binding>, input: seq<KeyStroke>)
    ensures SomeExtends(first + second, input) <==> SomeExtends(first, input) || SomeExtends(second, input)
  {
    if second == [] {
      assert first + second == first;
    } else {
      var n := |second| - 1;
      var rest, b := second[..n], second[n];
      assert second == rest + [b];
      assert first + second == first + rest + [b];
      SomeExtendsAppend(first, rest, input);
      Extended(rest, b, input);
      Extended(first + rest, b, input);
    }
  }

  lemma {:induction false} LookupInBoth(first: seq<Binding>, second: seq<Binding>, input: seq<KeyStroke>)
    ensures Lookup(first + second, input) == Both(Lookup(first, input), Lookup(second, input), |first|)
  {
    var all := first + second;
    SomeExtendsAppend(first, second, input);
    assert Answers(Both(Lookup(first, input), Lookup(second, input), |first|), all, input);
  }

  // Typing

  datatype Reply = Fires(at: nat) | Waits | Passes

  function ReplyTo(bs: seq<Binding>, keys: seq<KeyStroke>): Reply {
    match Lookup(bs, keys)
    case Found(i) => Fires(i)
    case Incomplete => Waits
    case NotFound => Passes
  }

  /** The replies to keys typed one after the other, with some already pending. */
  function Replies(bs: seq<Binding>, pending: seq<KeyStroke>, keys: seq<KeyStroke>): (rs: seq<Reply>)
    ensures |rs| == |keys|
    decreases |keys|
  {
    if keys == [] then []
    else
      var now := pending + [keys[0]];
      var reply := ReplyTo(bs, now);
      [reply] + Replies(bs, if reply.Waits? then now else [], keys[1..])
  }

  /** All but the last key are waited on, and the last one fires binding i. */
  ghost predicate FiresAtLast(rs: seq<Reply>, i: nat) {
    && rs != []
    && if |rs| == 1 then rs[0] == Fires(i) else rs[0] == Waits && FiresAtLast(rs[1..], i)
  }

  ghost predicate Beginnings(bs: seq<Binding>, pending: seq<KeyStroke>, keys: seq<KeyStroke>) {
    forall k :: 0 < k < |keys| ==> Lookup(bs, pending + keys[..k]) == Incomplete
  }

  lemma BeginningsStep(bs: seq<Binding>, pending: seq<KeyStroke>, keys: seq<KeyStroke>)
    requires |keys| > 1
    ensures Beginnings(bs, pending, keys)
       <==> Lookup(bs, pending + [keys[0]]) == Incomplete && Beginnings(bs, pending + [keys[0]], keys[1..])
  {
    var now, rest := pending + [keys[0]], keys[1..];
    assert pending + keys[..1] == now;
    forall k | 0 <= k < |rest| ensures now + rest[..k] == pending + keys[..k + 1] {
    }
    if Lookup(bs, now) == Incomplete && Beginnings(bs, now, rest) {
      forall k | 0 < k < |keys| ensures Lookup(bs, pending + keys[..k]) == Incomplete {
        assert now + rest[..k - 1] == pending + keys[..k];
      }
    }
  }

  lemma {:induction false} FiresAtLastIff(bs: seq<Binding>, pending: seq<KeyStroke>, keys: seq<KeyStroke>, i: nat)
    requires keys != []
    ensures FiresAtLast(Replies(bs, pending, keys), i)
       <==> Lookup(bs, pending + keys) == Found(i) && Beginnings(bs, pending, keys)
    decreases |keys|
  {
    var now, rest := pending + [keys[0]], keys[1..];
    assert now + rest == pending + keys;
    if |keys| == 1 {
      assert now == pending + keys;
    } else {
      BeginningsStep(bs, pending, keys);
      FiresAtLastIff(bs, now, rest, i);
    }
  }

  /**
   Typing a binding's own keys fires it, and nothing before it, exactly if no binding has
   been given a beginning of these keys and none earlier in the list the same ones.
   */
  lemma {:induction false} ReachableIff(bs: seq<Binding>, i: nat)
    requires i < |bs| && bs[i].input != []
    ensures FiresAtLast(Replies(bs, [], bs[i].input), i)
       <==> && (forall j, k :: 0 <= j < |bs| && 0 < k < |bs[i].input| ==> !Equals(bs[j], bs[i].input[..k]))
            && (forall j :: 0 <= j < i ==> !Equals(bs[j], bs[i].input))
  {
    var keys := bs[i].input;
    FiresAtLastIff(bs, [], keys, i);
    assert [] + keys == keys;
    assert Equals(bs[i], keys);
    forall k | 0 < k < |keys|
      ensures Lookup(bs, [] + keys[..k]) == Incomplete <==> NoneEquals(bs, keys[..k])
    {
      assert [] + keys[..k] == keys[..k];
      assert Extends(bs[i], keys[..k]);
    }
  }
}
