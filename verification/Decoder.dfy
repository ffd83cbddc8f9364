/** The instruction decoder generator: from patterns to switches over masked words. */
module Decoder {
  import opened Options
  import opened Bits
  import opened Digits

  // ---------------------------------------------------------------------------
  // Patterns
  // ---------------------------------------------------------------------------

  datatype InstType = Only32 | Only64 | Both

  datatype Pattern = Pattern(mask: nat, key: nat, length: nat, name: string, decoder: string, kind: InstType)

  predicate Matches(p: Pattern, w: nat) {
    BitAnd(w, p.mask) == p.key
  }

  predicate IsFixed(c: char) {
    c == '0' || c == '1'
  }

  predicate IsFree(c: char) {
    c == '?' || c == 'x' || c == 'X'
  }

  /** The key fixes no digit that the mask does not select. */
  predicate KeyInMask(p: Pattern) {
    BitAnd(p.key, p.mask) == p.key
  }

  function Clean(s: string): string {
    if s == "" then ""
    else if s[|s| - 1] == ' ' then Clean(s[..|s| - 1])
    else Clean(s[..|s| - 1]) + [s[|s| - 1]]
  }

  /** The word shows what a pattern without spaces fixes; its last character is digit 0. */
  ghost predicate Agrees(w: nat, s: string) {
    forall i: nat :: i < |s| && IsFixed(s[|s| - 1 - i]) ==> (Bit(w, i) <==> s[|s| - 1 - i] == '1')
  }

  function MaskOf(s: string): nat {
    if s == "" then 0 else 2 * MaskOf(s[..|s| - 1]) + if IsFixed(s[|s| - 1]) then 1 else 0
  }

  function KeyOf(s: string): nat {
    if s == "" then 0 else 2 * KeyOf(s[..|s| - 1]) + if s[|s| - 1] == '1' then 1 else 0
  }

  lemma {:induction false} MaskBits(s: string, i: nat)
    ensures MaskOf(s) < Pow2(|s|) && KeyOf(s) < Pow2(|s|)
    ensures Bit(MaskOf(s), i) <==> i < |s| && IsFixed(s[|s| - 1 - i])
    ensures Bit(KeyOf(s), i) <==> i < |s| && s[|s| - 1 - i] == '1'
  {
    if s == "" {
      ZeroBit(i);
    } else {
      var t := s[..|s| - 1];
      assert MaskOf(s) / 2 == MaskOf(t) && KeyOf(s) / 2 == KeyOf(t);
      if i == 0 {
        MaskBits(t, 0);
        assert !IsFixed(s[|s| - 1]) ==> MaskOf(s) % 2 == 0;
      } else {
        MaskBits(t, i - 1);
        assert i < |s| ==> s[|s| - 1 - i] == t[|t| - 1 - (i - 1)];
      }
    }
  }

  /** (w & mask) == key exactly when the word agrees with every fixed character. */
  lemma MaskedIsAgreement(w: nat, s: string)
    ensures BitAnd(w, MaskOf(s)) == KeyOf(s) <==> Agrees(w, s)
  {
    MaskBits(s, 0);
    AndBelow(w, MaskOf(s));
    forall i: nat
      ensures Bit(BitAnd(w, MaskOf(s)), i) <==> Bit(w, i) && i < |s| && IsFixed(s[|s| - 1 - i])
      ensures Bit(KeyOf(s), i) <==> i < |s| && s[|s| - 1 - i] == '1'
    {
      AndBit(w, MaskOf(s), i);
      MaskBits(s, i);
    }
    if Agrees(w, s) {
      SameBits(BitAnd(w, MaskOf(s)), KeyOf(s), |s|);
    }
  }

  lemma KeyIsMasked(s: string)
    ensures BitAnd(KeyOf(s), MaskOf(s)) == KeyOf(s)
  {
    forall i: nat ensures Bit(BitAnd(KeyOf(s), MaskOf(s)), i) <==> Bit(KeyOf(s), i) {
      AndBit(KeyOf(s), MaskOf(s), i);
      MaskBits(s, i);
    }
    EqualBits(BitAnd(KeyOf(s), MaskOf(s)), KeyOf(s));
  }

  lemma MatchesWhatAgrees(s: string)
    ensures BitAnd(KeyOf(s), MaskOf(s)) == KeyOf(s)
    ensures forall w: nat :: BitAnd(w, MaskOf(s)) == KeyOf(s) <==> Agrees(w, s)
  {
    KeyIsMasked(s);
    forall w: nat ensures BitAnd(w, MaskOf(s)) == KeyOf(s) <==> Agrees(w, s) {
      MaskedIsAgreement(w, s);
    }
  }

  lemma SetLowest(x: nat)
    ensures BitOr(Shl(x, 1), 1) == 2 * x + 1 && Shl(x, 1) == 2 * x
  {
    assert Pow2(1) == 2 && Shl(x, 1) == 2 * Shl(x, 0);
    OrDisjoint(x, 1, 1);
  }

  /** The constructor of InstPattern; None stands for the exception on an invalid character. */
  method ParsePattern(pattern: string, name: string, decoder: string, kind: InstType)
    returns (r: Option<Pattern>)
    ensures r.None? <==>
              exists i :: 0 <= i < |pattern| && pattern[i] != ' ' && !IsFixed(pattern[i]) && !IsFree(pattern[i])
    ensures r.Some? ==> r.value.length == |Clean(pattern)| && KeyInMask(r.value)
    ensures r.Some? ==> forall w: nat :: Matches(r.value, w) <==> Agrees(w, Clean(pattern))
    ensures r.Some? ==> (r.value.name, r.value.decoder, r.value.kind) == (name, decoder, kind)
  {
    var mask, key, length := 0, 0, 0;
    for i := 0 to |pattern|
      invariant mask == MaskOf(Clean(pattern[..i])) && key == KeyOf(Clean(pattern[..i]))
      invariant length == |Clean(pattern[..i])|
      invariant forall k :: 0 <= k < i ==> pattern[k] == ' ' || IsFixed(pattern[k]) || IsFree(pattern[k])
    {
      var c := pattern[i];
      assert pattern[..i + 1] == pattern[..i] + [c] && pattern[..i + 1][..i] == pattern[..i];
      if c == ' ' {
        continue;
      }
      assert Clean(pattern[..i + 1])[..length] == Clean(pattern[..i]);
      SetLowest(mask);
      SetLowest(key);
      length := length + 1;
      mask := Shl(mask, 1);
      key := Shl(key, 1);
      if c == '0' {
        mask := BitOr(mask, 1);
      } else if c == '1' {
        mask := BitOr(mask, 1);
        key := BitOr(key, 1);
      } else if !IsFree(c) {
        return None;
      }
    }
    assert pattern[..|pattern|] == pattern;
    MatchesWhatAgrees(Clean(pattern));
    return Some(Pattern(mask, key, length, name, decoder, kind));
  }

  // ---------------------------------------------------------------------------
  // Decoding
  // ---------------------------------------------------------------------------

  datatype Xlen = Isa32 | Isa64

  /** The preprocessor keeps the instructions of the instruction set that is built. */
  predicate Enabled(p: Pattern, isa: Xlen) {
    match p.kind
    case Only32 => isa == Isa32
    case Only64 => isa == Isa64
    case Both => true
  }

  predicate Decodes(p: Pattern, isa: Xlen, w: nat) {
    Enabled(p, isa) && Matches(p, w)
  }

  /** The first pattern of a list that decodes the word. */
  function FirstIn(group: seq<Pattern>, isa: Xlen, w: nat): (r: Option<Pattern>)
    ensures r.Some? ==> r.value in group && Decodes(r.value, isa, w)
    ensures r.None? ==> forall p :: p in group ==> !Decodes(p, isa, w)
  {
    if group == [] then None
    else if Decodes(group[0], isa, w) then Some(group[0])
    else FirstIn(group[1..], isa, w)
  }

  /** The first in file order, groups in order. */
  function FirstMatch(groups: seq<seq<Pattern>>, isa: Xlen, w: nat): Option<Pattern> {
    if groups == [] then None
    else
      match FirstIn(groups[0], isa, w)
      case Some(p) => Some(p)
      case None => FirstMatch(groups[1..], isa, w)
  }

  /** A dictionary from masks to patterns that remembers in which order its keys were inserted. */
  datatype Table = Table(masks: seq<nat>, cases: map<nat, seq<Pattern>>)

  /** One switch: the case whose label is the masked word. */
  function Switch(cases: seq<Pattern>, mask: nat, isa: Xlen, w: nat): Option<Pattern> {
    if cases == [] then None
    else if Enabled(cases[0], isa) && BitAnd(w, mask) == cases[0].key then Some(cases[0])
    else Switch(cases[1..], mask, isa, w)
  }

  /** The switches of a table, one after the other; a case returns from the decoder. */
  function Switches(masks: seq<nat>, cases: map<nat, seq<Pattern>>, isa: Xlen, w: nat): Option<Pattern>
    requires forall m :: m in masks ==> m in cases
  {
    if masks == [] then None
    else
      match Switch(cases[masks[0]], masks[0], isa, w)
      case Some(p) => Some(p)
      case None => Switches(masks[1..], cases, isa, w)
  }

  /** The generated decoder; None is its final `return nullptr`. */
  function Decode(tables: seq<Table>, isa: Xlen, w: nat): Option<Pattern>
    requires forall t :: t in tables ==> forall m :: m in t.masks ==> m in t.cases
  {
    if tables == [] then None
    else
      match Switches(tables[0].masks, tables[0].cases, isa, w)
      case Some(p) => Some(p)
      case None => Decode(tables[1..], isa, w)
  }

  // ---------------------------------------------------------------------------
  // Building the tables
  // ---------------------------------------------------------------------------

  function WithMask(group: seq<Pattern>, mask: nat): seq<Pattern> {
    if group == [] then []
    else WithMask(group[..|group| - 1], mask) +
         if group[|group| - 1].mask == mask then [group[|group| - 1]] else []
  }

  /** The masks of a group in the order they first occur. */
  function MasksOf(group: seq<Pattern>): seq<nat> {
    if group == [] then []
    else
      var rest := MasksOf(group[..|group| - 1]);
      if group[|group| - 1].mask in rest then rest else rest + [group[|group| - 1].mask]
  }

  /** The table holds under each mask the patterns with that mask, in file order. */
  ghost predicate IsTableOf(t: Table, group: seq<Pattern>) {
    && t.masks == MasksOf(group)
    && (forall m :: m in t.cases <==> m in t.masks)
    && forall m :: m in t.cases ==> t.cases[m] == WithMask(group, m)
  }

  lemma {:induction false} MasksDistinct(group: seq<Pattern>)
    ensures forall i, j :: 0 <= i < j < |MasksOf(group)| ==> MasksOf(group)[i] != MasksOf(group)[j]
    ensures forall m :: m in MasksOf(group) <==> exists p :: p in group && p.mask == m
  {
    if group != [] {
      var front, last := group[..|group| - 1], group[|group| - 1];
      MasksDistinct(front);
      assert group == front + [last];
    }
  }

  lemma {:induction false} WithMaskMembers(group: seq<Pattern>, mask: nat)
    ensures forall p :: p in WithMask(group, mask) <==> p in group && p.mask == mask
  {
    if group != [] {
      WithMaskMembers(group[..|group| - 1], mask);
      assert group == group[..|group| - 1] + [group[|group| - 1]];
    }
  }

  lemma NoneWithMask(group: seq<Pattern>, mask: nat)
    ensures mask !in MasksOf(group) ==> WithMask(group, mask) == []
  {
    MasksDistinct(group);
    WithMaskMembers(group, mask);
    if WithMask(group, mask) != [] {
      assert WithMask(group, mask)[0] in WithMask(group, mask);
    }
  }

  /** build_decode_table for one group */
  method BuildTable(group: seq<Pattern>) returns (t: Table)
    ensures IsTableOf(t, group)
  {
    t := Table([], map[]);
    for i := 0 to |group|
      invariant IsTableOf(t, group[..i])
    {
      var p := group[i];
      assert group[..i + 1][..i] == group[..i] && group[..i + 1][i] == p;
      NoneWithMask(group[..i], p.mask);
      if p.mask !in t.cases {
        t := Table(t.masks + [p.mask], t.cases[p.mask := []]);
      }
      t := t.(cases := t.cases[p.mask := t.cases[p.mask] + [p]]);
    }
    assert group[..|group|] == group;
  }

  /** build_decode_table */
  method BuildDecodeTable(groups: seq<seq<Pattern>>) returns (tables: seq<Table>)
    ensures AreTablesOf(tables, groups)
  {
    tables := [];
    for i := 0 to |groups|
      invariant |tables| == i && forall k :: 0 <= k < i ==> IsTableOf(tables[k], groups[k])
    {
      var t := BuildTable(groups[i]);
      tables := tables + [t];
    }
  }

  // ---------------------------------------------------------------------------
  // What the decoder decodes
  // ---------------------------------------------------------------------------

  lemma {:induction false} SwitchIsFirst(cases: seq<Pattern>, mask: nat, isa: Xlen, w: nat)
    requires forall p :: p in cases ==> p.mask == mask
    ensures Switch(cases, mask, isa, w) == FirstIn(cases, isa, w)
  {
    if cases != [] { SwitchIsFirst(cases[1..], mask, isa, w); }
  }

  /** The switches find a pattern of the group that decodes the word, if there is one. */
  lemma {:induction false} SwitchesFind(masks: seq<nat>, cases: map<nat, seq<Pattern>>, isa: Xlen, w: nat)
    requires forall m :: m in masks ==> m in cases && forall p :: p in cases[m] ==> p.mask == m
    ensures var r := Switches(masks, cases, isa, w);
            && (r.Some? ==> r.value.mask in masks && r.value in cases[r.value.mask] && Decodes(r.value, isa, w))
            && (r.None? ==> forall m :: m in masks ==> forall p :: p in cases[m] ==> !Decodes(p, isa, w))
  {
    if masks != [] {
      SwitchIsFirst(cases[masks[0]], masks[0], isa, w);
      SwitchesFind(masks[1..], cases, isa, w);
      assert masks == [masks[0]] + masks[1..];
    }
  }

  lemma TableFinds(t: Table, group: seq<Pattern>, isa: Xlen, w: nat)
    requires IsTableOf(t, group)
    ensures var r := Switches(t.masks, t.cases, isa, w);
            && (r.Some? ==> r.value in group && Decodes(r.value, isa, w))
            && (r.None? <==> FirstIn(group, isa, w).None?)
  {
    forall m | m in t.masks ensures forall p :: p in t.cases[m] ==> p in group && p.mask == m {
      WithMaskMembers(group, m);
    }
    SwitchesFind(t.masks, t.cases, isa, w);
    MasksDistinct(group);
    if Switches(t.masks, t.cases, isa, w).None? {
      forall p | p in group ensures !Decodes(p, isa, w) {
        WithMaskMembers(group, p.mask);
        assert p in t.cases[p.mask];
      }
    }
  }

  ghost predicate AreTablesOf(tables: seq<Table>, groups: seq<seq<Pattern>>) {
    |tables| == |groups| && forall i :: 0 <= i < |groups| ==> IsTableOf(tables[i], groups[i])
  }

  /** No pattern of the first `k` groups decodes the word. */
  ghost predicate NoneBefore(groups: seq<seq<Pattern>>, k: nat, isa: Xlen, w: nat)
    requires k <= |groups|
  {
    forall j :: 0 <= j < k ==> FirstIn(groups[j], isa, w).None?
  }

  /** The decoder finds an instruction exactly when some pattern decodes the word, and it finds one of
      the first group that has one. */
  lemma {:induction false} DecodeFinds(tables: seq<Table>, groups: seq<seq<Pattern>>, isa: Xlen, w: nat)
    returns (k: nat)
    requires AreTablesOf(tables, groups)
    ensures k <= |groups| && NoneBefore(groups, k, isa, w)
    ensures Decode(tables, isa, w).None? <==> k == |groups|
    ensures k < |groups| ==> Decode(tables, isa, w).value in groups[k] && Decodes(Decode(tables, isa, w).value, isa, w)
  {
    k := 0;
    if tables != [] {
      TableFinds(tables[0], groups[0], isa, w);
      if Switches(tables[0].masks, tables[0].cases, isa, w).None? {
        var j := DecodeFinds(tables[1..], groups[1..], isa, w);
        k := j + 1;
        forall i | 0 <= i < k ensures FirstIn(groups[i], isa, w).None? {
          if i > 0 { assert groups[i] == groups[1..][i - 1]; }
        }
      }
    }
  }

  /** No word is decoded by two patterns of the group. */
  ghost predicate Unambiguous(group: seq<Pattern>, isa: Xlen) {
    forall p, q, w: nat :: p in group && q in group && Decodes(p, isa, w) && Decodes(q, isa, w) ==> p == q
  }

  /** Two patterns agree wherever both fix a digit. */
  predicate Compatible(p: Pattern, q: Pattern) {
    BitAnd(p.key, q.mask) == BitAnd(q.key, p.mask)
  }

  /** Two patterns share a word exactly when they agree where both fix a digit. */
  lemma SharedWord(p: Pattern, q: Pattern)
    requires KeyInMask(p) && KeyInMask(q)
    ensures (exists w: nat :: Matches(p, w) && Matches(q, w)) <==> Compatible(p, q)
  {
    if w: nat :| Matches(p, w) && Matches(q, w) {
      forall i: nat ensures Bit(BitAnd(p.key, q.mask), i) <==> Bit(BitAnd(q.key, p.mask), i) {
        AndBit(w, p.mask, i);
        AndBit(w, q.mask, i);
        AndBit(p.key, q.mask, i);
        AndBit(q.key, p.mask, i);
      }
      EqualBits(BitAnd(p.key, q.mask), BitAnd(q.key, p.mask));
    }
    if BitAnd(p.key, q.mask) == BitAnd(q.key, p.mask) {
      var w := BitOr(p.key, q.key);
      forall i: nat
        ensures Bit(BitAnd(w, p.mask), i) <==> Bit(p.key, i)
        ensures Bit(BitAnd(w, q.mask), i) <==> Bit(q.key, i)
      {
        OrBit(p.key, q.key, i);
        AndBit(w, p.mask, i);
        AndBit(w, q.mask, i);
        AndBit(p.key, p.mask, i);
        AndBit(q.key, q.mask, i);
        AndBit(p.key, q.mask, i);
        AndBit(q.key, p.mask, i);
      }
      EqualBits(BitAnd(w, p.mask), p.key);
      EqualBits(BitAnd(w, q.mask), q.key);
      assert Matches(p, w) && Matches(q, w);
    }
  }

  lemma EqualBits(x: nat, y: nat)
    requires forall i: nat :: Bit(x, i) <==> Bit(y, i)
    ensures x == y
  {
    BelowPower(x);
    BelowPower(y);
    if x < y { BelowMono(x, y); } else if y < x { BelowMono(y, x); }
    SameBits(x, y, if x < y then y else x);
  }

  lemma {:induction false} BelowPower(x: nat)
    ensures x < Pow2(x)
  {
    if x > 0 { BelowPower(x - 1); }
  }

  lemma BelowMono(x: nat, y: nat)
    requires x < y
    ensures x < Pow2(y)
  {
    BelowPower(y);
  }

  // ---------------------------------------------------------------------------
  // When grouping by mask keeps the file's order of choice
  // ---------------------------------------------------------------------------

  /** The mask `m` is listed before `n`. */
  ghost predicate Before(masks: seq<nat>, m: nat, n: nat) {
    exists i, j :: 0 <= i < j < |masks| && masks[i] == m && masks[j] == n
  }

  /** No pattern that decodes the word has a mask that comes into use before that of the first match. */
  ghost predicate KeepsChoice(group: seq<Pattern>, isa: Xlen, w: nat)
    requires FirstIn(group, isa, w).Some?
  {
    var first := FirstIn(group, isa, w).value;
    forall q :: q in group && Decodes(q, isa, w) ==> !Before(MasksOf(group), q.mask, first.mask)
  }

  /** The same for the first group that has a match. */
  ghost predicate KeepsChoices(groups: seq<seq<Pattern>>, isa: Xlen, w: nat) {
    groups != [] ==>
      if FirstIn(groups[0], isa, w).Some? then KeepsChoice(groups[0], isa, w)
      else KeepsChoices(groups[1..], isa, w)
  }

  lemma {:induction false} FirstInConcat(p: seq<Pattern>, q: seq<Pattern>, isa: Xlen, w: nat)
    ensures FirstIn(p + q, isa, w) == if FirstIn(p, isa, w).Some? then FirstIn(p, isa, w) else FirstIn(q, isa, w)
  {
    if p == [] {
      assert p + q == q;
    } else {
      assert (p + q)[1..] == p[1..] + q;
      FirstInConcat(p[1..], q, isa, w);
    }
  }

  /** The first match is the first of those with its mask. */
  lemma {:induction false} FirstWithMask(group: seq<Pattern>, isa: Xlen, w: nat)
    ensures var f := FirstIn(group, isa, w);
            f.Some? ==> FirstIn(WithMask(group, f.value.mask), isa, w) == f
  {
    if group != [] {
      var front, last := group[..|group| - 1], group[|group| - 1];
      assert group == front + [last];
      FirstInConcat(front, [last], isa, w);
      FirstWithMask(front, isa, w);
      if f: Pattern :| FirstIn(group, isa, w) == Some(f) {
        FirstInConcat(WithMask(front, f.mask), if last.mask == f.mask then [last] else [], isa, w);
        if FirstIn(front, isa, w).None? {
          WithMaskMembers(front, f.mask);
        }
      }
    }
  }

  /** The switch that answers is the first whose cases decode the word. */
  lemma {:induction false} AnsweringSwitch(masks: seq<nat>, cases: map<nat, seq<Pattern>>, isa: Xlen, w: nat)
    returns (k: nat)
    requires forall m :: m in masks ==> m in cases && forall p :: p in cases[m] ==> p.mask == m
    requires Switches(masks, cases, isa, w).Some?
    ensures k < |masks| && FirstIn(cases[masks[k]], isa, w) == Switches(masks, cases, isa, w)
    ensures forall j :: 0 <= j < k ==> FirstIn(cases[masks[j]], isa, w).None?
  {
    k := 0;
    SwitchIsFirst(cases[masks[0]], masks[0], isa, w);
    if FirstIn(cases[masks[0]], isa, w).None? {
      var j := AnsweringSwitch(masks[1..], cases, isa, w);
      k := j + 1;
      forall i | 0 <= i < k ensures FirstIn(cases[masks[i]], isa, w).None? {
        if i > 0 { assert masks[i] == masks[1..][i - 1]; }
      }
    }
  }

  /** Within a group the switches take the first match in file order exactly when no pattern that decodes
      the word has a mask listed before that of the first match. */
  lemma TableKeepsChoice(t: Table, group: seq<Pattern>, isa: Xlen, w: nat)
    requires IsTableOf(t, group) && FirstIn(group, isa, w).Some?
    ensures Switches(t.masks, t.cases, isa, w) == FirstIn(group, isa, w) <==> KeepsChoice(group, isa, w)
  {
    var first := FirstIn(group, isa, w).value;
    forall m | m in t.masks ensures forall p :: p in t.cases[m] <==> p in group && p.mask == m {
      WithMaskMembers(group, m);
    }
    TableFinds(t, group, isa, w);
    MasksDistinct(group);
    var k := AnsweringSwitch(t.masks, t.cases, isa, w);
    var found := Switches(t.masks, t.cases, isa, w).value;
    assert found in t.cases[t.masks[k]] && first in t.cases[first.mask];
    var own: nat :| own < |t.masks| && t.masks[own] == first.mask;
    FirstWithMask(group, isa, w);
    assert FirstIn(t.cases[t.masks[own]], isa, w).Some?;
    assert k <= own;
    if own == k {
      forall q | q in group && Decodes(q, isa, w) ensures !Before(t.masks, q.mask, first.mask) {
        assert q in t.cases[q.mask];
      }
    } else {
      assert Before(t.masks, found.mask, first.mask);
    }
  }

  /** The generated decoder takes the first match in file order exactly when the group it finds it in
      keeps the choice. */
  lemma {:induction false} DecodeIsFirstMatch(tables: seq<Table>, groups: seq<seq<Pattern>>, isa: Xlen, w: nat)
    requires AreTablesOf(tables, groups)
    ensures Decode(tables, isa, w) == FirstMatch(groups, isa, w) <==> KeepsChoices(groups, isa, w)
  {
    if tables != [] {
      TableFinds(tables[0], groups[0], isa, w);
      if FirstIn(groups[0], isa, w).Some? {
        TableKeepsChoice(tables[0], groups[0], isa, w);
      } else {
        DecodeIsFirstMatch(tables[1..], groups[1..], isa, w);
      }
    }
  }

  /** A pattern and a later one whose mask came into use earlier, with a word for both that nothing
      before them decodes. */
  ghost predicate Reordered(group: seq<Pattern>, isa: Xlen, i: nat, j: nat, w: nat)
    requires i < j < |group|
  {
    && Before(MasksOf(group), group[j].mask, group[i].mask)
    && Decodes(group[i], isa, w) && Decodes(group[j], isa, w) && FirstIn(group[..i], isa, w).None?
  }

  lemma FirstAt(group: seq<Pattern>, i: nat, isa: Xlen, w: nat)
    requires i < |group| && FirstIn(group[..i], isa, w).None? && Decodes(group[i], isa, w)
    ensures FirstIn(group, isa, w) == Some(group[i])
  {
    assert group == group[..i] + group[i..];
    FirstInConcat(group[..i], group[i..], isa, w);
  }

  lemma {:induction false} FirstIndex(group: seq<Pattern>, isa: Xlen, w: nat) returns (i: nat)
    requires FirstIn(group, isa, w).Some?
    ensures i < |group| && FirstIn(group[..i], isa, w).None? && FirstIn(group, isa, w) == Some(group[i])
  {
    i := 0;
    if !Decodes(group[0], isa, w) {
      var j := FirstIndex(group[1..], isa, w);
      i := j + 1;
      assert group[..i] == [group[0]] + group[1..][..j];
      FirstInConcat([group[0]], group[1..][..j], isa, w);
    }
  }

  lemma ReorderedBreaks(t: Table, group: seq<Pattern>, isa: Xlen, i: nat, j: nat, w: nat)
    requires IsTableOf(t, group) && i < j < |group| && Reordered(group, isa, i, j, w)
    ensures Switches(t.masks, t.cases, isa, w) != FirstIn(group, isa, w)
  {
    FirstAt(group, i, isa, w);
    TableKeepsChoice(t, group, isa, w);
    assert group[j] in group;
  }

  lemma BrokenIsReordered(t: Table, group: seq<Pattern>, isa: Xlen, w: nat) returns (i: nat, j: nat)
    requires IsTableOf(t, group) && Switches(t.masks, t.cases, isa, w) != FirstIn(group, isa, w)
    ensures i < j < |group| && Reordered(group, isa, i, j, w)
  {
    TableFinds(t, group, isa, w);
    TableKeepsChoice(t, group, isa, w);
    i := FirstIndex(group, isa, w);
    var q :| q in group && Decodes(q, isa, w) && Before(MasksOf(group), q.mask, group[i].mask);
    j :| 0 <= j < |group| && group[j] == q;
    NotBeforeItself(group, q.mask, group[i].mask);
    LaterMatch(group, isa, w, i, j);
  }

  lemma NotBeforeItself(group: seq<Pattern>, m: nat, n: nat)
    requires Before(MasksOf(group), m, n)
    ensures m != n
  {
    MasksDistinct(group);
  }

  lemma LaterMatch(group: seq<Pattern>, isa: Xlen, w: nat, i: nat, j: nat)
    requires i < |group| && j < |group| && FirstIn(group[..i], isa, w).None? && Decodes(group[j], isa, w)
    ensures i <= j
  {
    assert group[j] !in group[..i];
  }

  /** A group keeps the choice for every word exactly when it reorders no pair. */
  lemma KeptForAllWords(t: Table, group: seq<Pattern>, isa: Xlen)
    requires IsTableOf(t, group)
    ensures (forall w: nat :: Switches(t.masks, t.cases, isa, w) == FirstIn(group, isa, w)) <==>
            !exists i: nat, j: nat, w: nat :: i < j < |group| && Reordered(group, isa, i, j, w)
  {
    if i: nat, j: nat, w: nat :| i < j < |group| && Reordered(group, isa, i, j, w) {
      ReorderedBreaks(t, group, isa, i, j, w);
    }
    if w: nat :| Switches(t.masks, t.cases, isa, w) != FirstIn(group, isa, w) {
      var i, j := BrokenIsReordered(t, group, isa, w);
    }
  }

  // ---------------------------------------------------------------------------
  // The same from masks and keys
  // ---------------------------------------------------------------------------

  /** A pair whose order of choice the masks reverse, and whose keys do not rule out a common word. */
  ghost predicate Reversed(group: seq<Pattern>, isa: Xlen, i: nat, j: nat)
    requires i < j < |group|
  {
    && Before(MasksOf(group), group[j].mask, group[i].mask)
    && Enabled(group[i], isa) && Enabled(group[j], isa) && Compatible(group[i], group[j])
  }

  /** No word is decoded at three places of the group. */
  ghost predicate AtMostTwice(group: seq<Pattern>, isa: Xlen) {
    forall i, j, k, w: nat :: 0 <= i < j < k < |group| && Decodes(group[i], isa, w) && Decodes(group[j], isa, w) ==>
      !Decodes(group[k], isa, w)
  }

  lemma ReorderedIsReversed(group: seq<Pattern>, isa: Xlen, i: nat, j: nat, w: nat)
    requires i < j < |group| && Reordered(group, isa, i, j, w) && KeyInMask(group[i]) && KeyInMask(group[j])
    ensures Reversed(group, isa, i, j)
  {
    SharedWord(group[i], group[j]);
  }

  lemma ReversedIsReordered(group: seq<Pattern>, isa: Xlen, i: nat, j: nat) returns (w: nat)
    requires i < j < |group| && Reversed(group, isa, i, j) && AtMostTwice(group, isa)
    requires KeyInMask(group[i]) && KeyInMask(group[j])
    ensures Reordered(group, isa, i, j, w)
  {
    SharedWord(group[i], group[j]);
    w :| Matches(group[i], w) && Matches(group[j], w);
    NoneEarlier(group, isa, i, j, w);
  }

  lemma NoneEarlier(group: seq<Pattern>, isa: Xlen, i: nat, j: nat, w: nat)
    requires i < j < |group| && AtMostTwice(group, isa) && Decodes(group[i], isa, w) && Decodes(group[j], isa, w)
    ensures FirstIn(group[..i], isa, w).None?
  {
    forall p | p in group[..i] ensures !Decodes(p, isa, w) {
      var k: nat :| k < i && group[k] == p;
    }
  }

  /** Without a reversed pair every word keeps its choice; where no word is decoded at three places, only
      without one. */
  lemma KeptWithoutReversedPairs(t: Table, group: seq<Pattern>, isa: Xlen)
    requires IsTableOf(t, group) && forall i :: 0 <= i < |group| ==> KeyInMask(group[i])
    ensures var kept := forall w: nat :: Switches(t.masks, t.cases, isa, w) == FirstIn(group, isa, w);
            var none := !exists i: nat, j: nat :: i < j < |group| && Reversed(group, isa, i, j);
            (none ==> kept) && (AtMostTwice(group, isa) ==> (kept <==> none))
  {
    if w: nat :| Switches(t.masks, t.cases, isa, w) != FirstIn(group, isa, w) {
      var i, j := BrokenIsReordered(t, group, isa, w);
      ReorderedIsReversed(group, isa, i, j, w);
    }
    if i: nat, j: nat :| i < j < |group| && Reversed(group, isa, i, j) {
      if AtMostTwice(group, isa) {
        var w := ReversedIsReordered(group, isa, i, j);
        ReorderedBreaks(t, group, isa, i, j, w);
      }
    }
  }

  /** Where no two patterns of a group share a word, every group keeps the choice. */
  lemma {:induction false} UnambiguousKeepsChoices(groups: seq<seq<Pattern>>, isa: Xlen, w: nat)
    requires forall g :: g in groups ==> Unambiguous(g, isa)
    ensures KeepsChoices(groups, isa, w)
  {
    if groups != [] {
      assert groups[0] in groups;
      MasksDistinct(groups[0]);
      UnambiguousKeepsChoices(groups[1..], isa, w);
    }
  }

  const PATTERN_A: Pattern := Pattern(1, 0, 2, "a", "", Both)
  const PATTERN_B: Pattern := Pattern(2, 2, 2, "b", "", Both)
  const PATTERN_C: Pattern := Pattern(1, 1, 2, "c", "", Both)
  const TABLE_ABC: Table := Table([1, 2], map[1 := [PATTERN_A, PATTERN_C], 2 := [PATTERN_B]])

  lemma TableOfABC()
    ensures IsTableOf(TABLE_ABC, [PATTERN_A, PATTERN_B, PATTERN_C])
  {
    var a, b, c := PATTERN_A, PATTERN_B, PATTERN_C;
    assert [a, b, c][..2] == [a, b] && [a, b][..1] == [a] && [a][..0] == [];
    assert MasksOf([a]) == [1];
    assert MasksOf([a, b]) == [1] + [2] by { assert b.mask !in [1]; }
    assert MasksOf([a, b, c]) == [1, 2] by { assert c.mask in [1, 2]; }
    assert WithMask([a], 1) == [a] && WithMask([a, b], 1) == [a] && WithMask([a, b, c], 1) == [a, c];
    assert WithMask([a], 2) == [] && [a, b][1] == b && [a, b, c][2] == c;
    assert WithMask([a, b], 2) == WithMask([a], 2) + [b] == [b];
    assert WithMask([a, b, c], 2) == WithMask([a, b], 2) + [] == [b];
  }

  /** Where two share a word, the mask that occurs first wins instead: x0, 1x, x1 on the word 11. */
  lemma GroupingReorders()
    ensures AreTablesOf([TABLE_ABC], [[PATTERN_A, PATTERN_B, PATTERN_C]])
    ensures FirstMatch([[PATTERN_A, PATTERN_B, PATTERN_C]], Isa32, 3) == Some(PATTERN_B)
    ensures Decode([TABLE_ABC], Isa32, 3) == Some(PATTERN_C)
  {
    TableOfABC();
    var a, b, c := PATTERN_A, PATTERN_B, PATTERN_C;
    assert BitAnd(1, 1) == 1 && BitAnd(3, 1) == 1 && BitAnd(3, 2) == 2 * BitAnd(1, 1);
    assert FirstIn([a, b, c], Isa32, 3) == FirstIn([b, c], Isa32, 3) == Some(b);
    assert Switch([a, c], 1, Isa32, 3) == Switch([c], 1, Isa32, 3) == Some(c);
  }
}
