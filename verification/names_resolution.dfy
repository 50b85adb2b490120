/** `CreateNamesSearchResult`: the coefficients one surviving person's name slots end up with, given
    the per-input-word results. A slot matched by a single input word keeps that word's coefficient,
    with the "Simple" correction when slots compete for the same input word; as soon as some slot is
    matched by two input words, the Hungarian best match decides every slot. */
module NamesResolution {
  import opened Wrappers
  import opened Domain
  import opened BestMatch
  import opened HungarianSpec

  /** One input word's result: person id -> the person's slots that word matched. */
  type PersonMatches = map<int, NamesResult>

  /** One input word's matched slots of one person. */
  type SlotHits = map<NameSlot, NameValue>

  /** The default value `GetValueRefOrAddDefault` inserts. */
  const Unmatched: NameValue := NameValue(0, 0.0)

  /** The slots of a person are numbered by position (`Names[i].WordIndex == i`), as `Add` builds them. */
  predicate SlotsNumbered(person: PersonModel) {
    forall i :: 0 <= i < |person.names| ==> person.names[i].wordIndex == i
  }

  /** `match[person]` for every input word's result. */
  function HitsOf(ms: seq<PersonMatches>, id: int): (rs: seq<SlotHits>)
    requires forall k :: 0 <= k < |ms| ==> id in ms[k]
    ensures |rs| == |ms| && forall k :: 0 <= k < |ms| ==> rs[k] == ms[k][id].names
  {
    seq(|ms|, k requires 0 <= k < |ms| => ms[k][id].names)
  }

  // ---------------------------------------------------------------------------------------------
  // What the input words say about one slot

  /** How many input words matched slot `s`. */
  function HitCount(rs: seq<SlotHits>, s: NameSlot): (r: nat)
    ensures r <= |rs|
    ensures r == 0 <==> forall k :: 0 <= k < |rs| ==> s !in rs[k]
    decreases |rs|
  {
    if rs == [] then 0
    else HitCount(rs[..|rs| - 1], s) + (if s in rs[|rs| - 1] then 1 else 0)
  }

  /** The value of the first input word that matched slot `s`. */
  function FirstHit(rs: seq<SlotHits>, s: NameSlot): (r: Option<NameValue>)
    ensures r.None? <==> forall k :: 0 <= k < |rs| ==> s !in rs[k]
    ensures r.Some? ==> exists k :: 0 <= k < |rs| && s in rs[k] && r.value == rs[k][s]
    decreases |rs|
  {
    if rs == [] then None
    else
      var f := FirstHit(rs[..|rs| - 1], s);
      if f.Some? then f
      else if s in rs[|rs| - 1] then Some(rs[|rs| - 1][s])
      else None
  }

  /** Two input words matched slot `s` with the same input word index. */
  ghost predicate Clash(rs: seq<SlotHits>, s: NameSlot) {
    exists k1, k2 :: 0 <= k1 < k2 < |rs| && s in rs[k1] && s in rs[k2]
                     && rs[k1][s].inputWordIndex == rs[k2][s].inputWordIndex
  }

  /** The `inputNameMatch` dictionary of slot `s`: input word index -> coefficient, filled in input word
      order; a second entry under the same index throws `ArgumentException`. */
  function SlotMatchMap(rs: seq<SlotHits>, s: NameSlot): (r: Result<SlotMatches>)
    ensures r.Failure? ==> r.error == Argument
    ensures r.Success? && rs != [] && s !in rs[|rs| - 1] ==> r == SlotMatchMap(rs[..|rs| - 1], s)
    decreases |rs|
  {
    if rs == [] then Success(map[])
    else
      var n := |rs| - 1;
      match SlotMatchMap(rs[..n], s)
      case Failure(e) => Failure(e)
      case Success(m) =>
        if s !in rs[n] then Success(m)
        else if rs[n][s].inputWordIndex in m then Failure(Argument)
        else Success(m[rs[n][s].inputWordIndex := rs[n][s].coefficient])
  }

  /** The dictionary holds one entry per input word that matched `s`. */
  lemma {:induction false} SlotMatchMapSize(rs: seq<SlotHits>, s: NameSlot)
    requires SlotMatchMap(rs, s).Success?
    ensures |SlotMatchMap(rs, s).value| == HitCount(rs, s)
    decreases |rs|
  {
    if rs != [] {
      SlotMatchMapSize(rs[..|rs| - 1], s);
    }
  }

  /** The dictionary holds exactly the input word indices of the words that matched `s`, each with its
      coefficient. */
  lemma {:induction false} SlotMatchMapHolds(rs: seq<SlotHits>, s: NameSlot)
    requires SlotMatchMap(rs, s).Success?
    ensures forall k :: 0 <= k < |rs| && s in rs[k] ==>
              rs[k][s].inputWordIndex in SlotMatchMap(rs, s).value
              && SlotMatchMap(rs, s).value[rs[k][s].inputWordIndex] == rs[k][s].coefficient
    ensures forall x :: x in SlotMatchMap(rs, s).value ==>
              exists k :: 0 <= k < |rs| && s in rs[k] && rs[k][s].inputWordIndex == x
    decreases |rs|
  {
    if rs != [] {
      var n := |rs| - 1;
      var front := rs[..n];
      assert forall k :: 0 <= k < n ==> front[k] == rs[k];
      SlotMatchMapHolds(front, s);
    }
  }

  /** The dictionary throws only when two input words matched `s` with the same input word index. */
  lemma {:induction false} FailureIsClash(rs: seq<SlotHits>, s: NameSlot)
    requires SlotMatchMap(rs, s).Failure?
    ensures Clash(rs, s)
    decreases |rs|
  {
    var n := |rs| - 1;
    var front := rs[..n];
    if SlotMatchMap(front, s).Failure? {
      FailureIsClash(front, s);
      var k1, k2 :| 0 <= k1 < k2 < |front| && s in front[k1] && s in front[k2]
                    && front[k1][s].inputWordIndex == front[k2][s].inputWordIndex;
      assert s in rs[k1] && s in rs[k2];
    } else {
      SlotMatchMapHolds(front, s);
      var k :| 0 <= k < n && s in front[k] && front[k][s].inputWordIndex == rs[n][s].inputWordIndex;
      assert s in rs[k] && s in rs[n];
    }
  }

  /** Two input words that matched `s` with the same input word index make the dictionary throw. */
  lemma {:induction false} ClashIsFailure(rs: seq<SlotHits>, s: NameSlot)
    requires Clash(rs, s)
    ensures SlotMatchMap(rs, s).Failure?
    decreases |rs|
  {
    var n := |rs| - 1;
    var front := rs[..n];
    var k1, k2 :| 0 <= k1 < k2 < |rs| && s in rs[k1] && s in rs[k2]
                  && rs[k1][s].inputWordIndex == rs[k2][s].inputWordIndex;
    if k2 < n {
      assert s in front[k1] && s in front[k2];
      ClashIsFailure(front, s);
    } else if SlotMatchMap(front, s).Success? {
      SlotMatchMapHolds(front, s);
      assert front[k1] == rs[k1];
      assert rs[n][s].inputWordIndex in SlotMatchMap(front, s).value;
    }
  }

  /** The dictionary throws exactly when two input words matched `s` with the same input word index. */
  lemma SlotMatchMapFails(rs: seq<SlotHits>, s: NameSlot)
    ensures SlotMatchMap(rs, s).Failure? <==> Clash(rs, s)
  {
    if SlotMatchMap(rs, s).Failure? {
      FailureIsClash(rs, s);
    }
    if Clash(rs, s) {
      ClashIsFailure(rs, s);
    }
  }

  // ---------------------------------------------------------------------------------------------
  // The order-independent description

  /** The first hit of every slot. */
  function FirstHits(rs: seq<SlotHits>, names: seq<NameSlot>): (hs: seq<Option<NameValue>>)
    ensures |hs| == |names| && forall j :: 0 <= j < |names| ==> hs[j] == FirstHit(rs, names[j])
  {
    seq(|names|, j requires 0 <= j < |names| => FirstHit(rs, names[j]))
  }

  /** Slot `j` was matched by the input word with index `w`. */
  ghost predicate InGroup(hs: seq<Option<NameValue>>, j: int, w: nat) {
    0 <= j < |hs| && hs[j].Some? && hs[j].value.inputWordIndex == w
  }

  /** One of the first `upto` slots was matched by the same input word with a larger coefficient. */
  ghost predicate Dominated(hs: seq<Option<NameValue>>, upto: nat, h: NameValue) {
    exists j :: 0 <= j < upto && InGroup(hs, j, h.inputWordIndex) && hs[j].value.coefficient > h.coefficient
  }

  /** The value a singly matched slot ends with: with the Simple correction (only when averaging over
      all slots), a positive coefficient that another slot of the same input word beats becomes 0. */
  ghost function Settled(hs: seq<Option<NameValue>>, upto: nat, avg: bool, h: NameValue): NameValue {
    if !avg && h.coefficient > 0.0 && Dominated(hs, upto, h) then h.(coefficient := 0.0) else h
  }

  /** Every entry belongs to one of the first `i` slots. */
  ghost predicate Keys(d: map<NameSlot, NameValue>, names: seq<NameSlot>, i: nat)
    requires i <= |names|
  {
    forall s :: s in d ==> exists j :: 0 <= j < i && names[j] == s
  }

  /** Each matched slot among the first `i` holds its settled value. */
  ghost predicate Matched(d: map<NameSlot, NameValue>, names: seq<NameSlot>, hs: seq<Option<NameValue>>,
                          i: nat, avg: bool)
    requires i <= |names| == |hs|
  {
    forall j :: 0 <= j < i && hs[j].Some? ==> names[j] in d && d[names[j]] == Settled(hs, i, avg, hs[j].value)
  }

  /** Each unmatched slot among the first `i` holds the default value, and only when averaging over all
      slots. */
  ghost predicate Defaulted(d: map<NameSlot, NameValue>, names: seq<NameSlot>, hs: seq<Option<NameValue>>,
                            i: nat, avg: bool)
    requires i <= |names| == |hs|
  {
    forall j :: 0 <= j < i && hs[j].None? ==> (names[j] in d <==> !avg) && (names[j] in d ==> d[names[j]] == Unmatched)
  }

  /** The entries of the first `i` slots, as `Settled` describes them. */
  ghost predicate Resolved(d: map<NameSlot, NameValue>, names: seq<NameSlot>, hs: seq<Option<NameValue>>,
                           i: nat, avg: bool)
    requires i <= |names| == |hs|
  {
    Keys(d, names, i) && Matched(d, names, hs, i, avg) && Defaulted(d, names, hs, i, avg)
  }

  /** The input word indices of the matched slots among the first `i`. */
  ghost function Claimed(hs: seq<Option<NameValue>>, i: nat): set<nat>
    requires i <= |hs|
  {
    set j | 0 <= j < i && hs[j].Some? :: hs[j].value.inputWordIndex
  }

  /** Among the slots of one input word that beat `x`, one is beaten by none. */
  lemma {:induction false} UnbeatenAbove(hs: seq<Option<NameValue>>, upto: nat, w: nat, x: real)
    requires upto <= |hs|
    requires exists j :: 0 <= j < upto && InGroup(hs, j, w) && hs[j].value.coefficient > x
    ensures exists j :: 0 <= j < upto && InGroup(hs, j, w) && hs[j].value.coefficient > x
                        && !Dominated(hs, upto, hs[j].value)
    decreases upto
  {
    var last := upto - 1;
    if InGroup(hs, last, w) && hs[last].value.coefficient > x {
      var c := hs[last].value.coefficient;
      if exists j :: 0 <= j < last && InGroup(hs, j, w) && hs[j].value.coefficient > c {
        UnbeatenAbove(hs, last, w, c);
        var j :| 0 <= j < last && InGroup(hs, j, w) && hs[j].value.coefficient > c
                 && !Dominated(hs, last, hs[j].value);
        assert !Dominated(hs, upto, hs[j].value);
      } else {
        assert !Dominated(hs, upto, hs[last].value);
      }
    } else {
      UnbeatenAbove(hs, last, w, x);
      var j :| 0 <= j < last && InGroup(hs, j, w) && hs[j].value.coefficient > x
               && !Dominated(hs, last, hs[j].value);
      assert !Dominated(hs, upto, hs[j].value);
    }
  }

  // ---------------------------------------------------------------------------------------------
  // The steps of the source

  /** The names dictionary and the set of claimed input word indices (`inputWordsIndices`). */
  datatype Tally = Tally(names: map<NameSlot, NameValue>, indices: set<nat>)

  /** The "Simple" correction loop: for every entry of the same input word index as `v`, an entry with a
      positive coefficient below `v`'s becomes 0; the slot's own entry becomes 0 when it is positive and
      some entry beats `v`. */
  function Correct(d: map<NameSlot, NameValue>, name: NameSlot, v: NameValue): (r: map<NameSlot, NameValue>)
    requires name in d
    ensures r.Keys == d.Keys
    ensures forall s :: s in d ==> r[s] == d[s] || r[s] == d[s].(coefficient := 0.0)
    ensures forall s :: s in d && s != name && d[s].inputWordIndex != v.inputWordIndex ==> r[s] == d[s]
    ensures forall s :: s in d && s != name && d[s].coefficient <= 0.0 ==> r[s] == d[s]
  {
    var own := d[name];
    var beaten := Beaten(d, name, v);
    var selfBeaten := own.inputWordIndex == v.inputWordIndex && own.coefficient != v.coefficient;
    map s | s in d ::
      if s == name then
        (if own.coefficient > 0.0 && (beaten || selfBeaten) then own.(coefficient := 0.0) else own)
      else if d[s].inputWordIndex == v.inputWordIndex && 0.0 < d[s].coefficient < v.coefficient then
        d[s].(coefficient := 0.0)
      else d[s]
  }

  /** Another entry of `v`'s input word index has a larger coefficient than `v`. */
  predicate Beaten(d: map<NameSlot, NameValue>, name: NameSlot, v: NameValue) {
    exists s :: s in d && s != name && d[s].inputWordIndex == v.inputWordIndex && d[s].coefficient > v.coefficient
  }

  /** A slot's first match while no slot has needed the Hungarian step: the entry takes the match's
      value unless it exists, and, when averaging over all slots, an input word index already claimed
      triggers the correction. */
  function Admit(t: Tally, name: NameSlot, v: NameValue, avg: bool): (r: Tally)
    ensures name in r.names
    ensures r.names.Keys == t.names.Keys + {name}
  {
    var d := if name in t.names then t.names else t.names[name := v];
    if avg then Tally(d, t.indices)
    else if v.inputWordIndex in t.indices then Tally(Correct(d, name, v), t.indices)
    else Tally(d, t.indices + {v.inputWordIndex})
  }

  lemma DominatedStep(hs: seq<Option<NameValue>>, i: nat, h: NameValue)
    requires i < |hs|
    ensures Dominated(hs, i + 1, h) <==>
              Dominated(hs, i, h) || (InGroup(hs, i, h.inputWordIndex) && hs[i].value.coefficient > h.coefficient)
  {
    if Dominated(hs, i + 1, h) && !Dominated(hs, i, h) {
      var j :| 0 <= j < i + 1 && InGroup(hs, j, h.inputWordIndex) && hs[j].value.coefficient > h.coefficient;
      assert j == i;
    }
  }

  lemma ClaimedStep(hs: seq<Option<NameValue>>, i: nat)
    requires i < |hs|
    ensures Claimed(hs, i + 1) == Claimed(hs, i) + (if hs[i].Some? then {hs[i].value.inputWordIndex} else {})
  {
    var l := Claimed(hs, i + 1);
    var r := Claimed(hs, i) + (if hs[i].Some? then {hs[i].value.inputWordIndex} else {});
    forall x | x in l ensures x in r {
      var j :| 0 <= j < i + 1 && hs[j].Some? && hs[j].value.inputWordIndex == x;
      if j < i { assert x in Claimed(hs, i); }
    }
    forall x | x in r ensures x in l {
      if x in Claimed(hs, i) {
        var j :| 0 <= j < i && hs[j].Some? && hs[j].value.inputWordIndex == x;
        assert 0 <= j < i + 1;
      }
    }
  }

  /** The first `i` slots leave the slot after them out. */
  lemma NotYetEntered(d: map<NameSlot, NameValue>, names: seq<NameSlot>, i: nat)
    requires i < |names| && DistinctSlots(names) && Keys(d, names, i)
    ensures names[i] !in d
  {
    assert forall j :: 0 <= j < i ==> names[j] != names[i];
  }

  lemma KeysStep(d: map<NameSlot, NameValue>, names: seq<NameSlot>, i: nat, x: NameValue)
    requires i < |names| && Keys(d, names, i)
    ensures Keys(d, names, i + 1) && Keys(d[names[i] := x], names, i + 1)
  {
  }

  /** Entering slot `i` keeps the earlier slots' entries, and gives slot `i` its settled value. */
  lemma MatchedStep(d: map<NameSlot, NameValue>, names: seq<NameSlot>, hs: seq<Option<NameValue>>,
                    i: nat, avg: bool, d': map<NameSlot, NameValue>)
    requires i < |names| == |hs| && DistinctSlots(names) && Matched(d, names, hs, i, avg)
    requires forall j :: 0 <= j < i && hs[j].Some? ==>
               Settled(hs, i + 1, avg, hs[j].value) == Settled(hs, i, avg, hs[j].value)
    requires forall j :: 0 <= j < i ==> (names[j] in d <==> names[j] in d') && (names[j] in d ==> d'[names[j]] == d[names[j]])
    requires hs[i].Some? ==> names[i] in d' && d'[names[i]] == Settled(hs, i + 1, avg, hs[i].value)
    ensures Matched(d', names, hs, i + 1, avg)
  {
  }

  lemma DefaultedStep(d: map<NameSlot, NameValue>, names: seq<NameSlot>, hs: seq<Option<NameValue>>,
                      i: nat, avg: bool, d': map<NameSlot, NameValue>)
    requires i < |names| == |hs| && Defaulted(d, names, hs, i, avg)
    requires forall j :: 0 <= j < i && hs[j].None? ==>
               (names[j] in d <==> names[j] in d') && (names[j] in d ==> d'[names[j]] == d[names[j]])
    requires hs[i].None? ==> (names[i] in d' <==> !avg) && (names[i] in d' ==> d'[names[i]] == Unmatched)
    ensures Defaulted(d', names, hs, i + 1, avg)
  {
  }

  /** A slot with no match moves the description on by one: with averaging over all slots it gets the
      default entry. */
  lemma SkipResolves(d: map<NameSlot, NameValue>, names: seq<NameSlot>, hs: seq<Option<NameValue>>,
                     i: nat, avg: bool)
    requires i < |names| == |hs| && DistinctSlots(names)
    requires Resolved(d, names, hs, i, avg) && hs[i].None?
    ensures Resolved(if !avg then d[names[i] := Unmatched] else d, names, hs, i + 1, avg)
    ensures Claimed(hs, i + 1) == Claimed(hs, i)
  {
    ClaimedStep(hs, i);
    NotYetEntered(d, names, i);
    KeysStep(d, names, i, Unmatched);
    var d' := if !avg then d[names[i] := Unmatched] else d;
    forall j | 0 <= j < i && hs[j].Some?
      ensures Settled(hs, i + 1, avg, hs[j].value) == Settled(hs, i, avg, hs[j].value)
    {
      DominatedStep(hs, i, hs[j].value);
    }
    MatchedStep(d, names, hs, i, avg, d');
    DefaultedStep(d, names, hs, i, avg, d');
  }

  /** With a positive coefficient, an entry beats `v` exactly when a slot of `v`'s input word does. */
  lemma BeatenIsDominated(d: map<NameSlot, NameValue>, names: seq<NameSlot>, hs: seq<Option<NameValue>>,
                          i: nat, name: NameSlot, v: NameValue)
    requires i <= |names| == |hs| && name !in d && v.coefficient > 0.0
    requires Keys(d, names, i) && Matched(d, names, hs, i, false) && Defaulted(d, names, hs, i, false)
    ensures Beaten(d, name, v) <==> Dominated(hs, i, v)
  {
    if Beaten(d, name, v) {
      var s :| s in d && s != name && d[s].inputWordIndex == v.inputWordIndex && d[s].coefficient > v.coefficient;
      var j :| 0 <= j < i && names[j] == s;
      assert InGroup(hs, j, v.inputWordIndex) && hs[j].value.coefficient > v.coefficient;
    }
    if Dominated(hs, i, v) {
      UnbeatenAbove(hs, i, v.inputWordIndex, v.coefficient);
      var j :| 0 <= j < i && InGroup(hs, j, v.inputWordIndex) && hs[j].value.coefficient > v.coefficient
               && !Dominated(hs, i, hs[j].value);
      assert names[j] in d && d[names[j]] == hs[j].value;
    }
  }

  lemma BeatenIgnoresOwn(d: map<NameSlot, NameValue>, name: NameSlot, v: NameValue)
    ensures Beaten(d[name := v], name, v) == Beaten(d, name, v)
  {
    if Beaten(d[name := v], name, v) {
      var s :| s in d[name := v] && s != name && d[name := v][s].inputWordIndex == v.inputWordIndex
               && d[name := v][s].coefficient > v.coefficient;
      assert s in d;
    }
    if Beaten(d, name, v) {
      var s :| s in d && s != name && d[s].inputWordIndex == v.inputWordIndex && d[s].coefficient > v.coefficient;
      assert s in d[name := v] && d[name := v][s] == d[s];
    }
  }

  /** The slot's own entry after the correction is its settled value. */
  lemma CorrectOwn(d: map<NameSlot, NameValue>, names: seq<NameSlot>, hs: seq<Option<NameValue>>, i: nat)
    requires i < |names| == |hs| && names[i] !in d
    requires Keys(d, names, i) && Matched(d, names, hs, i, false) && Defaulted(d, names, hs, i, false)
    requires hs[i].Some?
    ensures var v := hs[i].value;
            Correct(d[names[i] := v], names[i], v)[names[i]] == Settled(hs, i + 1, false, v)
  {
    var v := hs[i].value;
    DominatedStep(hs, i, v);
    BeatenIgnoresOwn(d, names[i], v);
    if v.coefficient > 0.0 {
      BeatenIsDominated(d, names, hs, i, names[i], v);
    }
  }

  /** An earlier slot's entry after the correction is its settled value with the new slot counted. */
  lemma CorrectOther(d: map<NameSlot, NameValue>, names: seq<NameSlot>, hs: seq<Option<NameValue>>,
                     i: nat, j: nat)
    requires j < i < |names| == |hs| && DistinctSlots(names)
    requires Resolved(d, names, hs, i, false) && hs[i].Some? && hs[j].Some?
    ensures var v := hs[i].value;
            Correct(d[names[i] := v], names[i], v)[names[i]] == Settled(hs, i + 1, false, v) ==>
            Correct(d[names[i] := v], names[i], v)[names[j]] == Settled(hs, i + 1, false, hs[j].value)
  {
    DominatedStep(hs, i, hs[j].value);
  }

  /** Admitting a slot's first match with no correction: its input word is new among the matched slots,
      or the averaging counts every value. */
  lemma AdmitPlainResolves(d: map<NameSlot, NameValue>, names: seq<NameSlot>, hs: seq<Option<NameValue>>,
                           i: nat, avg: bool)
    requires i < |names| == |hs| && DistinctSlots(names)
    requires Resolved(d, names, hs, i, avg) && hs[i].Some?
    requires avg || hs[i].value.inputWordIndex !in Claimed(hs, i)
    ensures Resolved(d[names[i] := hs[i].value], names, hs, i + 1, avg)
  {
    var v := hs[i].value;
    var d' := d[names[i] := v];
    NotYetEntered(d, names, i);
    KeysStep(d, names, i, v);
    DominatedStep(hs, i, v);
    forall j | 0 <= j < i && hs[j].Some?
      ensures Settled(hs, i + 1, avg, hs[j].value) == Settled(hs, i, avg, hs[j].value)
    {
      DominatedStep(hs, i, hs[j].value);
      if !avg {
        assert hs[j].value.inputWordIndex in Claimed(hs, i);
      }
    }
    MatchedStep(d, names, hs, i, avg, d');
    DefaultedStep(d, names, hs, i, avg, d');
  }

  /** Any dictionary that adds slot `i` with its settled value, settles the earlier matched slots with
      slot `i` counted, and keeps the defaults describes the first `i + 1` slots. */
  lemma ResolvedAfter(d: map<NameSlot, NameValue>, d': map<NameSlot, NameValue>, names: seq<NameSlot>,
                      hs: seq<Option<NameValue>>, i: nat, avg: bool)
    requires i < |names| == |hs| && DistinctSlots(names)
    requires Resolved(d, names, hs, i, avg) && hs[i].Some?
    requires d'.Keys == d.Keys + {names[i]}
    requires d'[names[i]] == Settled(hs, i + 1, avg, hs[i].value)
    requires forall j :: 0 <= j < i && hs[j].Some? ==> names[j] in d' && d'[names[j]] == Settled(hs, i + 1, avg, hs[j].value)
    requires forall j :: 0 <= j < i && hs[j].None? && names[j] in d ==> d'[names[j]] == d[names[j]]
    ensures Resolved(d', names, hs, i + 1, avg)
  {
    NotYetEntered(d, names, i);
    KeysAfter(d, d', names, i);
    MatchedAfter(d', names, hs, i, avg);
    DefaultedStep(d, names, hs, i, avg, d');
  }

  lemma KeysAfter(d: map<NameSlot, NameValue>, d': map<NameSlot, NameValue>, names: seq<NameSlot>, i: nat)
    requires i < |names| && Keys(d, names, i) && d'.Keys == d.Keys + {names[i]}
    ensures Keys(d', names, i + 1)
  {
  }

  lemma MatchedAfter(d': map<NameSlot, NameValue>, names: seq<NameSlot>, hs: seq<Option<NameValue>>,
                     i: nat, avg: bool)
    requires i < |names| == |hs| && hs[i].Some?
    requires names[i] in d' && d'[names[i]] == Settled(hs, i + 1, avg, hs[i].value)
    requires forall j :: 0 <= j < i && hs[j].Some? ==> names[j] in d' && d'[names[j]] == Settled(hs, i + 1, avg, hs[j].value)
    ensures Matched(d', names, hs, i + 1, avg)
  {
  }

  /** Admitting a slot's first match whose input word another matched slot already claimed: the
      correction settles both the new entry and the earlier ones. */
  lemma AdmitCorrectedResolves(d: map<NameSlot, NameValue>, names: seq<NameSlot>, hs: seq<Option<NameValue>>,
                               i: nat)
    requires i < |names| == |hs| && DistinctSlots(names)
    requires Resolved(d, names, hs, i, false) && hs[i].Some?
    ensures var v := hs[i].value;
            Resolved(Correct(d[names[i] := v], names[i], v), names, hs, i + 1, false)
  {
    var v := hs[i].value;
    var d1 := d[names[i] := v];
    var d' := Correct(d1, names[i], v);
    NotYetEntered(d, names, i);
    CorrectOwn(d, names, hs, i);
    forall j | 0 <= j < i && hs[j].Some?
      ensures names[j] in d' && d'[names[j]] == Settled(hs, i + 1, false, hs[j].value)
    {
      CorrectOther(d, names, hs, i, j);
    }
    forall j | 0 <= j < i && hs[j].None? && names[j] in d
      ensures d'[names[j]] == d[names[j]]
    {
      assert names[j] != names[i] && d1[names[j]] == Unmatched;
    }
    ResolvedAfter(d, d', names, hs, i, false);
  }

  /** Admitting a slot's first match moves the description on by one slot. */
  lemma AdmitResolves(d: map<NameSlot, NameValue>, indices: set<nat>, names: seq<NameSlot>,
                      hs: seq<Option<NameValue>>, i: nat, avg: bool)
    requires i < |names| == |hs| && DistinctSlots(names)
    requires Resolved(d, names, hs, i, avg) && hs[i].Some?
    requires indices == if avg then {} else Claimed(hs, i)
    ensures var t := Admit(Tally(d, indices), names[i], hs[i].value, avg);
            Resolved(t.names, names, hs, i + 1, avg) && t.indices == if avg then {} else Claimed(hs, i + 1)
  {
    ClaimedStep(hs, i);
    NotYetEntered(d, names, i);
    if avg || hs[i].value.inputWordIndex !in indices {
      AdmitPlainResolves(d, names, hs, i, avg);
    } else {
      AdmitCorrectedResolves(d, names, hs, i);
    }
  }

  // ---------------------------------------------------------------------------------------------
  // The method

  /** Some slot was matched twice under one input word index: `inputNameMatch.Add` throws. */
  ghost predicate AnyClash(rs: seq<SlotHits>, names: seq<NameSlot>) {
    exists i :: 0 <= i < |names| && Clash(rs, names[i])
  }

  /** Some slot was matched by two or more input words: the Hungarian best match decides. */
  ghost predicate NeedsAssignment(rs: seq<SlotHits>, names: seq<NameSlot>) {
    exists i :: 0 <= i < |names| && HitCount(rs, names[i]) >= 2
  }

  /** `inputNameMatches`: every slot's dictionary, indexed by slot position (a dictionary that would
      throw is left empty; the method never gets that far). */
  function SlotMaps(rs: seq<SlotHits>, names: seq<NameSlot>): (cs: seq<SlotMatches>)
    ensures |cs| == |names|
    ensures forall i :: 0 <= i < |names| && SlotMatchMap(rs, names[i]).Success? ==> Success(cs[i]) == SlotMatchMap(rs, names[i])
  {
    seq(|names|, i requires 0 <= i < |names| =>
      if SlotMatchMap(rs, names[i]).Success? then SlotMatchMap(rs, names[i]).value else map[])
  }

  /** The Hungarian outcome: every slot has an entry, holding the coefficient a best match gives it.
      Only the coefficient is fixed here; `ApplyBestMatch` states that the input word index of each
      entry is left as the scan set it. */
  ghost predicate AssignedBy(d: map<NameSlot, NameValue>, names: seq<NameSlot>, cs: seq<SlotMatches>)
    requires |cs| == |names|
  {
    && (forall s :: s in d <==> s in names)
    && exists best :: IsBestMatch(cs, best) && forall i :: 0 <= i < |names| ==> i in best && d[names[i]].coefficient == best[i]
  }

  lemma PrefixClash(rs: seq<SlotHits>, k: nat, s: NameSlot)
    requires k <= |rs| && Clash(rs[..k], s)
    ensures Clash(rs, s)
  {
    var k1, k2 :| 0 <= k1 < k2 < k && s in rs[..k][k1] && s in rs[..k][k2]
                  && rs[..k][k1][s].inputWordIndex == rs[..k][k2][s].inputWordIndex;
    assert rs[..k][k1] == rs[k1] && rs[..k][k2] == rs[k2];
  }

  /** One more input word extends the count, the first match and the dictionary of a slot. */
  lemma ScanStep(rs: seq<SlotHits>, k: nat, s: NameSlot)
    requires k < |rs|
    ensures HitCount(rs[..k + 1], s) == HitCount(rs[..k], s) + if s in rs[k] then 1 else 0
    ensures FirstHit(rs[..k + 1], s) ==
              if FirstHit(rs[..k], s).Some? then FirstHit(rs[..k], s)
              else if s in rs[k] then Some(rs[k][s]) else None
    ensures SlotMatchMap(rs[..k], s).Success? ==>
              SlotMatchMap(rs[..k + 1], s) ==
                var m := SlotMatchMap(rs[..k], s).value;
                if s !in rs[k] then Success(m)
                else if rs[k][s].inputWordIndex in m then Failure(Argument)
                else Success(m[rs[k][s].inputWordIndex := rs[k][s].coefficient])
  {
    assert rs[..k + 1][..k] == rs[..k];
  }

  /** What scanning the input words for one slot leaves behind. */
  datatype SlotScan = SlotScan(matches: SlotMatches, tally: Tally, hungarian: bool)

  /** The state after the first `k` input words of one slot's scan. */
  ghost predicate WordsScanned(rs: seq<SlotHits>, name: NameSlot, t0: Tally, hungarian0: bool, avg: bool,
                               k: nat, sc: SlotScan)
    requires k <= |rs|
  {
    && SlotMatchMap(rs[..k], name) == Success(sc.matches)
    && |sc.matches| == HitCount(rs[..k], name)
    && (sc.hungarian <==> hungarian0 || |sc.matches| >= 2)
    && (!sc.hungarian ==>
          sc.tally == if FirstHit(rs[..k], name).Some? then Admit(t0, name, FirstHit(rs[..k], name).value, avg) else t0)
    && sc.tally.names.Keys <= t0.names.Keys + {name}
  }

  /** One iteration of the inner loop: input word `k` either skips the slot or adds its match to
      `inputNameMatch` (throwing on a repeated index), and then either switches to the Hungarian step or
      admits the first match. */
  method ScanWord(rs: seq<SlotHits>, name: NameSlot, t0: Tally, hungarian0: bool, avg: bool, k: nat, sc: SlotScan)
    returns (r: Result<SlotScan>)
    requires k < |rs| && WordsScanned(rs, name, t0, hungarian0, avg, k, sc)
    ensures r.Failure? ==> r.error == Argument && Clash(rs, name)
    ensures r.Success? ==> WordsScanned(rs, name, t0, hungarian0, avg, k + 1, r.value)
  {
    ScanStep(rs, k, name);
    if name !in rs[k] {
      return Success(sc);
    }
    var v := rs[k][name];
    if v.inputWordIndex in sc.matches {
      SlotMatchMapFails(rs[..k + 1], name);
      PrefixClash(rs, k + 1, name);
      return Failure(Argument);
    }
    var m := sc.matches[v.inputWordIndex := v.coefficient];
    if !sc.hungarian {
      if |m| > 1 {
        return Success(SlotScan(m, sc.tally, true));
      }
      return Success(SlotScan(m, Admit(sc.tally, name, v, avg), false));
    }
    return Success(SlotScan(m, sc.tally, sc.hungarian));
  }

  /** The inner loop of `CreateNamesSearchResult` for one slot: fills its `inputNameMatch`, switches to
      the Hungarian step on its second match, and otherwise admits its first match. */
  method ScanSlot(rs: seq<SlotHits>, name: NameSlot, t0: Tally, hungarian0: bool, avg: bool)
    returns (r: Result<SlotScan>)
    ensures r.Failure? <==> Clash(rs, name)
    ensures r.Failure? ==> r.error == Argument
    ensures r.Success? ==> Success(r.value.matches) == SlotMatchMap(rs, name)
    ensures r.Success? ==> (r.value.hungarian <==> hungarian0 || HitCount(rs, name) >= 2)
    ensures r.Success? && !r.value.hungarian ==>
              r.value.tally == if FirstHit(rs, name).Some? then Admit(t0, name, FirstHit(rs, name).value, avg) else t0
    ensures r.Success? ==> r.value.tally.names.Keys <= t0.names.Keys + {name}
  {
    var sc := SlotScan(map[], t0, hungarian0);
    assert rs[..0] == [];
    for k := 0 to |rs|
      invariant WordsScanned(rs, name, t0, hungarian0, avg, k, sc)
    {
      var next := ScanWord(rs, name, t0, hungarian0, avg, k, sc);
      if next.Failure? {
        return next;
      }
      sc := next.value;
    }
    assert rs[..|rs|] == rs;
    SlotMatchMapFails(rs, name);
    return Success(sc);
  }

  lemma KeysGrow(d: map<NameSlot, NameValue>, d': map<NameSlot, NameValue>, names: seq<NameSlot>, i: nat)
    requires i < |names| && Keys(d, names, i) && d'.Keys <= d.Keys + {names[i]}
    ensures Keys(d', names, i + 1)
  {
  }

  lemma NumberedDistinct(person: PersonModel)
    requires SlotsNumbered(person)
    ensures DistinctSlots(person.names)
  {
    forall a, b | 0 <= a < b < |person.names|
      ensures person.names[a] != person.names[b]
    {
      assert person.names[a].wordIndex == a;
    }
  }

  lemma AppendMatches(before: seq<SlotMatches>, x: SlotMatches, rs: seq<SlotHits>, names: seq<NameSlot>, i: nat)
    requires i < |names| && |before| == i && Success(x) == SlotMatchMap(rs, names[i])
    requires forall j :: 0 <= j < i ==> Success(before[j]) == SlotMatchMap(rs, names[j])
    ensures forall j :: 0 <= j < i + 1 ==> Success((before + [x])[j]) == SlotMatchMap(rs, names[j])
  {
  }

  lemma TwiceMatchedStep(rs: seq<SlotHits>, names: seq<NameSlot>, i: nat, h: bool, h': bool)
    requires i < |names|
    requires h <==> exists j :: 0 <= j < i && HitCount(rs, names[j]) >= 2
    requires h' <==> h || HitCount(rs, names[i]) >= 2
    ensures h' <==> exists j :: 0 <= j < i + 1 && HitCount(rs, names[j]) >= 2
  {
  }

  /** One slot scanned: the description and the claimed indices move on while no slot needs the
      Hungarian step, and the entries stay within the scanned slots. */
  lemma TallyStep(rs: seq<SlotHits>, names: seq<NameSlot>, hs: seq<Option<NameValue>>, i: nat, avg: bool,
                  t1: Tally, sc: SlotScan, t: Tally)
    requires i < |names| && DistinctSlots(names) && hs == FirstHits(rs, names)
    requires Keys(t1.names, names, i)
    requires !sc.hungarian ==> Resolved(t1.names, names, hs, i, avg) && t1.indices == if avg then {} else Claimed(hs, i)
    requires !sc.hungarian ==>
               sc.tally == if FirstHit(rs, names[i]).Some? then Admit(t1, names[i], FirstHit(rs, names[i]).value, avg) else t1
    requires sc.tally.names.Keys <= t1.names.Keys + {names[i]}
    requires t == if !avg && names[i] !in sc.tally.names then sc.tally.(names := sc.tally.names[names[i] := Unmatched]) else sc.tally
    ensures !sc.hungarian ==> Resolved(t.names, names, hs, i + 1, avg) && t.indices == if avg then {} else Claimed(hs, i + 1)
    ensures Keys(t.names, names, i + 1)
  {
    if !sc.hungarian {
      if hs[i].Some? {
        AdmitResolves(t1.names, t1.indices, names, hs, i, avg);
      } else {
        SkipResolves(t1.names, names, hs, i, avg);
      }
    }
    KeysGrow(t1.names, t.names, names, i);
  }

  /** What scanning all slots leaves behind: the names dictionary, `inputNameMatches`, and whether the
      Hungarian step is needed. */
  datatype SlotsScan = SlotsScan(tally: Tally, matches: seq<SlotMatches>, hungarian: bool)

  /** The state after scanning the first `i` slots without a throw. */
  ghost predicate Scanned(rs: seq<SlotHits>, names: seq<NameSlot>, avg: bool, i: nat, st: SlotsScan)
    requires i <= |names|
  {
    var hs := FirstHits(rs, names);
    && |st.matches| == i
    && (forall j :: 0 <= j < i ==> Success(st.matches[j]) == SlotMatchMap(rs, names[j]))
    && (st.hungarian <==> exists j :: 0 <= j < i && HitCount(rs, names[j]) >= 2)
    && (!st.hungarian ==> Resolved(st.tally.names, names, hs, i, avg)
                          && st.tally.indices == if avg then {} else Claimed(hs, i))
    && Keys(st.tally.names, names, i)
  }

  /** One iteration of the outer loop: slot `i` is scanned, its dictionary appended, and, unless averaging,
      the slot gets the default entry when it has none. */
  method ScanNext(rs: seq<SlotHits>, names: seq<NameSlot>, avg: bool, i: nat, st: SlotsScan)
    returns (r: Result<SlotsScan>)
    requires i < |names| && DistinctSlots(names) && Scanned(rs, names, avg, i, st)
    ensures r.Failure? <==> Clash(rs, names[i])
    ensures r.Failure? ==> r.error == Argument
    ensures r.Success? ==> Scanned(rs, names, avg, i + 1, r.value)
  {
    ghost var hs := FirstHits(rs, names);
    var scan := ScanSlot(rs, names[i], st.tally, st.hungarian, avg);
    if scan.Failure? {
      return Failure(scan.error);
    }
    AppendMatches(st.matches, scan.value.matches, rs, names, i);
    TwiceMatchedStep(rs, names, i, st.hungarian, scan.value.hungarian);
    var t := scan.value.tally;
    if !avg && names[i] !in t.names {
      t := t.(names := t.names[names[i] := Unmatched]);
    }
    TallyStep(rs, names, hs, i, avg, st.tally, scan.value, t);
    return Success(SlotsScan(t, st.matches + [scan.value.matches], scan.value.hungarian));
  }

  /** The outer loop of `CreateNamesSearchResult`, over the person's slots in order. */
  method ScanSlots(rs: seq<SlotHits>, names: seq<NameSlot>, avg: bool) returns (r: Result<SlotsScan>)
    requires DistinctSlots(names)
    ensures r.Failure? <==> AnyClash(rs, names)
    ensures r.Failure? ==> r.error == Argument
    ensures r.Success? ==> r.value.matches == SlotMaps(rs, names)
    ensures r.Success? ==> (r.value.hungarian <==> NeedsAssignment(rs, names))
    ensures r.Success? && !r.value.hungarian ==> Resolved(r.value.tally.names, names, FirstHits(rs, names), |names|, avg)
    ensures r.Success? ==> Keys(r.value.tally.names, names, |names|)
  {
    var st := SlotsScan(Tally(map[], {}), [], false);
    for i := 0 to |names|
      invariant Scanned(rs, names, avg, i, st)
    {
      var next := ScanNext(rs, names, avg, i, st);
      if next.Failure? {
        assert AnyClash(rs, names);
        return Failure(next.error);
      }
      st := next.value;
    }
    assert !AnyClash(rs, names) by {
      forall j | 0 <= j < |names| ensures !Clash(rs, names[j]) {
        SlotMatchMapFails(rs, names[j]);
      }
    }
    return Success(st);
  }

  /** The Hungarian post-pass: every slot gets an entry (the default when it has none), and a slot the
      best match covers takes the best match's coefficient. */
  method ApplyBestMatch(d0: map<NameSlot, NameValue>, names: seq<NameSlot>, best: map<nat, real>)
    returns (d: map<NameSlot, NameValue>)
    ensures forall s :: s in d <==> s in d0 || s in names
    ensures forall i :: 0 <= i < |names| && names[i].wordIndex in best && DistinctSlots(names) ==>
              d[names[i]].coefficient == best[names[i].wordIndex]
    ensures forall s :: s in d0 && s !in names ==> d[s] == d0[s]
    ensures forall s :: s in d ==> d[s].inputWordIndex == (if s in d0 then d0[s] else Unmatched).inputWordIndex
  {
    d := d0;
    for i := 0 to |names|
      invariant forall s :: s in d <==> s in d0 || s in names[..i]
      invariant forall s :: s in d ==> d[s].inputWordIndex == (if s in d0 then d0[s] else Unmatched).inputWordIndex
      invariant forall j :: 0 <= j < i && names[j].wordIndex in best && DistinctSlots(names) ==>
                  d[names[j]].coefficient == best[names[j].wordIndex]
      invariant forall s :: s in d0 && s !in names ==> d[s] == d0[s]
    {
      var val := if names[i] in d then d[names[i]] else Unmatched;
      if names[i].wordIndex in best {
        val := val.(coefficient := best[names[i].wordIndex]);
      }
      d := d[names[i] := val];
    }
    assert names[..|names|] == names;
  }

  /** `CreateNamesSearchResult`: the names dictionary of one person that every input word matched. A
      slot matched twice under one input word index throws. Otherwise, when no slot was matched by two
      input words, each matched slot holds its match settled by the Simple correction, and (only when
      averaging over all slots) each unmatched slot holds the default; when some slot was matched by two
      input words, every slot holds what a best match of the slot dictionaries gives it, or the matrix
      conversion's error surfaces. The input words themselves only size a hash set in the source. */
  method CreateNamesSearchResult(person: PersonModel, ms: seq<PersonMatches>, opts: SearchOptions)
    returns (r: Result<NamesResult>)
    requires SlotsNumbered(person)
    requires forall k :: 0 <= k < |ms| ==> person.id in ms[k]
    ensures var rs := HitsOf(ms, person.id);
            AnyClash(rs, person.names) ==> r == Failure(Argument)
    ensures var rs := HitsOf(ms, person.id);
            !AnyClash(rs, person.names) && !NeedsAssignment(rs, person.names) ==>
              r.Success? && Resolved(r.value.names, person.names, FirstHits(rs, person.names), |person.names|,
                                     opts.averageByInputCount)
    ensures var rs := HitsOf(ms, person.id);
            var cs := SlotMaps(rs, person.names);
            !AnyClash(rs, person.names) && NeedsAssignment(rs, person.names) ==>
              && (r.Success? <==> ArrayOfDictionariesToMatrix(cs).Success?)
              && (r.Failure? ==> r.error == ArrayOfDictionariesToMatrix(cs).error)
              && (r.Success? ==> AssignedBy(r.value.names, person.names, cs))
    ensures r.Success? ==> ResolvedFor(HitsOf(ms, person.id), person.names, opts.averageByInputCount, r.value.names)
  {
    var rs := HitsOf(ms, person.id);
    NumberedDistinct(person);
    var scan := ScanSlots(rs, person.names, opts.averageByInputCount);
    if scan.Failure? {
      return Failure(scan.error);
    }
    if !scan.value.hungarian {
      return Success(NamesResult(scan.value.tally.names));
    }
    var best := HungarianBestMatch(scan.value.matches);
    if best.Failure? {
      return Failure(best.error);
    }
    var d := ApplyBestMatch(scan.value.tally.names, person.names, best.value);
    BestMatchCovers(d, person.names, scan.value.tally.names, scan.value.matches, best.value);
    return Success(NamesResult(d));
  }

  lemma BestMatchCovers(d: map<NameSlot, NameValue>, names: seq<NameSlot>, d0: map<NameSlot, NameValue>,
                        cs: seq<SlotMatches>, best: map<nat, real>)
    requires |cs| == |names| && DistinctSlots(names) && Keys(d0, names, |names|)
    requires forall i :: 0 <= i < |names| ==> names[i].wordIndex == i
    requires IsBestMatch(cs, best)
    requires forall s :: s in d <==> s in d0 || s in names
    requires forall i :: 0 <= i < |names| && names[i].wordIndex in best && DistinctSlots(names) ==>
               d[names[i]].coefficient == best[names[i].wordIndex]
    ensures AssignedBy(d, names, cs)
  {
    var p :| Optimal(ArrayOfDictionariesToMatrix(cs).value, p, Max) && best == Chosen(cs, p);
    assert forall i :: 0 <= i < |names| ==> i in best;
  }

  /** What a successful resolution promises: no slot was matched twice under one input word index, and
      the entries are the settled single matches or, when some slot was matched twice, a best assignment. */
  ghost predicate ResolvedFor(rs: seq<SlotHits>, names: seq<NameSlot>, avg: bool, d: map<NameSlot, NameValue>) {
    && !AnyClash(rs, names)
    && (!NeedsAssignment(rs, names) ==> Resolved(d, names, FirstHits(rs, names), |names|, avg))
    && (NeedsAssignment(rs, names) ==> AssignedBy(d, names, SlotMaps(rs, names)))
  }

  /** Some slot has an entry. */
  ghost predicate SomeSlotKept(names: seq<NameSlot>, rs: seq<SlotHits>, avg: bool) {
    exists j :: 0 <= j < |names| && (!avg || FirstHit(rs, names[j]).Some?)
  }

  /** A resolution is empty exactly when no slot was matched and unmatched slots are left out
      (averaging by input count), or the person has no slots. */
  lemma ResolvedEmpty(rs: seq<SlotHits>, names: seq<NameSlot>, avg: bool, d: map<NameSlot, NameValue>)
    requires ResolvedFor(rs, names, avg, d)
    ensures d != map[] <==> SomeSlotKept(names, rs, avg)
  {
    if NeedsAssignment(rs, names) {
      var i :| 0 <= i < |names| && HitCount(rs, names[i]) >= 2;
      assert names[i] in d;
      assert FirstHit(rs, names[i]).Some?;
    } else {
      var hs := FirstHits(rs, names);
      if d != map[] {
        var s :| s in d;
        var j :| 0 <= j < |names| && names[j] == s;
        assert !avg || hs[j].Some?;
      }
      if SomeSlotKept(names, rs, avg) {
        var j :| 0 <= j < |names| && (!avg || FirstHit(rs, names[j]).Some?);
        assert names[j] in d;
      }
    }
  }

  /** Hits of different input words carry different input word indices. */
  ghost predicate WordsApart(rs: seq<SlotHits>) {
    forall k1, k2, s1, s2 :: 0 <= k1 < k2 < |rs| && s1 in rs[k1] && s2 in rs[k2] ==>
      rs[k1][s1].inputWordIndex != rs[k2][s2].inputWordIndex
  }

  /** When different input words carry different indices, every one below the number of slots, the
      resolution cannot fail: no slot dictionary sees an index twice and the matrix stays square. */
  lemma ApartWordsResolve(rs: seq<SlotHits>, names: seq<NameSlot>)
    requires WordsApart(rs) && names != []
    requires forall k, s :: 0 <= k < |rs| && s in rs[k] ==> rs[k][s].inputWordIndex < |names|
    ensures !AnyClash(rs, names)
    ensures ArrayOfDictionariesToMatrix(SlotMaps(rs, names)).Success?
  {
    var cs := SlotMaps(rs, names);
    forall i, x | 0 <= i < |cs| && x in cs[i]
      ensures x < |cs|
    {
      SlotMatchMapFails(rs, names[i]);
      SlotMatchMapHolds(rs, names[i]);
    }
  }
}
