/**
 * How the fuzzer turns a parsed entry list into a tree of boofuzz
 * primitives (`setupFuzzTLV`): one primitive per entry, each named after a
 * counter that lives across calls, with every length field pointing at the
 * field whose size it carries.
 *
 * The primitives are abstracted to the arguments the fuzzer passes them;
 * what boofuzz does with them (rendering, mutation) is not modelled.
 * `Setup` is the specification, `FieldTreeBuilder.SetupFuzzTLV` the loop of
 * the source, with the global counter as a field.
 */
module FuzzTree {
  import opened Bits
  import opened Tlv

  // ---------------------------------------------------------------------
  // Names

  /** The four stems of the names the fuzzer gives its primitives. */
  datatype Prefix = TagP | LengthP | ValueP | TLVP

  /** A primitive's name: a stem followed by a counter value in decimal. */
  datatype Name = Name(prefix: Prefix, n: nat)

  function Stem(p: Prefix): (s: string)
  {
    match p
    case TagP => "Tag"
    case LengthP => "Length"
    case ValueP => "Value"
    case TLVP => "TLV"
  }

  function Digit(d: nat): (c: char)
    requires d < 10
    ensures '0' <= c <= '9'
  {
    (48 + d) as char
  }

  /** `str(n)` for a non-negative integer: its decimal digits, no leading zero. */
  function Decimal(n: nat): (s: string)
    ensures 1 <= |s|
    ensures forall i | 0 <= i < |s| :: '0' <= s[i] <= '9'
    ensures n < 10 <==> |s| == 1
    decreases n
  {
    if n < 10 then [Digit(n)] else Decimal(n / 10) + [Digit(n % 10)]
  }

  /** The string the source builds, such as `"Value" + str(nameCount)`. */
  function Render(nm: Name): (s: string)
    ensures |Stem(nm.prefix)| < |s| && s[..|Stem(nm.prefix)|] == Stem(nm.prefix)
    ensures forall i | |Stem(nm.prefix)| <= i < |s| :: '0' <= s[i] <= '9'
  {
    Stem(nm.prefix) + Decimal(nm.n)
  }

  /** Different counter values print differently. */
  lemma {:induction false} DecimalInjective(a: nat, b: nat)
    ensures Decimal(a) == Decimal(b) ==> a == b
    decreases a
  {
    if Decimal(a) == Decimal(b) && a >= 10 && b >= 10 {
      var da, db := Decimal(a), Decimal(b);
      assert da[..|da| - 1] == Decimal(a / 10);
      assert db[..|db| - 1] == Decimal(b / 10);
      DecimalInjective(a / 10, b / 10);
      assert da[|da| - 1] == Digit(a % 10);
    }
  }

  /** Different names print differently, so distinct names are distinct strings. */
  lemma RenderInjective(x: Name, y: Name)
    ensures Render(x) == Render(y) ==> x == y
  {
    if Render(x) == Render(y) {
      var rx, ry := Render(x), Render(y);
      assert rx[0] == Stem(x.prefix)[0] && ry[0] == Stem(y.prefix)[0];
      assert rx[1] == Stem(x.prefix)[1] && ry[1] == Stem(y.prefix)[1];
      assert x.prefix == y.prefix;
      var k := |Stem(x.prefix)|;
      assert rx[k..] == Decimal(x.n) && ry[k..] == Decimal(y.n);
      DecimalInjective(x.n, y.n);
    }
  }

  lemma RenderExample()
    ensures Render(Name(TLVP, 12)) == "TLV12"
    ensures Render(Name(LengthP, 0)) == "Length0"
  {
    assert Decimal(12) == Decimal(1) + [Digit(2)];
  }

  // ---------------------------------------------------------------------
  // The primitives and the tree

  /** The boofuzz primitives setupFuzzTLV creates, with the arguments it
      gives them: Bytes for a tag, Size for a length byte, RandomData for a
      value and Block for a (nested) list. */
  datatype Field =
    | Bytes(name: Name, size: nat, default: seq<byte>, fuzzable: bool)
    | Size(name: Name, blockName: Name, length: nat, fuzzable: bool)
    | RandomData(name: Name, minLength: nat, maxLength: nat, default: seq<byte>)
    | Block(name: Name, children: seq<Field>)

  /** The lists setupFuzzTLV accepts: at every depth a TLV entry is never the
      first one, since it re-targets the primitive before it and
      `children[-1]` of an empty list raises. */
  predicate Buildable(es: seq<Entry>)
  {
    forall i | 0 <= i < |es| :: es[i].TLV? ==> i > 0 && Buildable(es[i].children)
  }

  /** `children[-1].block_name = target`: only a Size field has a block
      name that means anything; on another primitive the new attribute is
      never read. */
  function Repoint(cs: seq<Field>, target: Name): (r: seq<Field>)
    requires cs != []
    ensures |r| == |cs| && r[..|cs| - 1] == cs[..|cs| - 1]
    ensures r[|cs| - 1].name == cs[|cs| - 1].name
    ensures cs[|cs| - 1].Size? ==> r[|cs| - 1] == cs[|cs| - 1].(blockName := target)
    ensures !cs[|cs| - 1].Size? ==> r == cs
  {
    var last := cs[|cs| - 1];
    if last.Size? then cs[..|cs| - 1] + [last.(blockName := target)] else cs
  }

  /** One turn of setupFuzzTLV's loop: the children so far and the counter,
      then the entry `e`. */
  function Step(acc: (seq<Field>, nat), e: Entry): (r: (seq<Field>, nat))
    requires e.TLV? ==> acc.0 != [] && Buildable(e.children)
    ensures |r.0| == |acc.0| + 1 && acc.1 <= r.1
    decreases e, 2
  {
    var (cs, m) := acc;
    match e
    case Tag(t) => (cs + [Bytes(Name(TagP, m), |t|, t, true)], m)
    case Length(_) => (cs + [Size(Name(LengthP, m), Name(ValueP, m), 1, false)], m)
    case Value(v) => (cs + [RandomData(Name(ValueP, m), 0, 0xff, v)], m + 1)
    case TLV(c) =>
      var (b, k) := Setup(c, m + 1);
      (Repoint(cs, Name(TLVP, m + 1)) + [b], k)
  }

  /** The loop over the entries, from a counter value `n`. */
  function Fold(es: seq<Entry>, n: nat): (r: (seq<Field>, nat))
    requires Buildable(es)
    ensures |r.0| == |es| && n <= r.1
    decreases es, 0
  {
    if es == [] then ([], n)
    else
      var init := es[..|es| - 1];
      assert forall i | 0 <= i < |init| :: init[i] == es[i];
      Step(Fold(init, n), es[|es| - 1])
  }

  /** setupFuzzTLV from counter value `n`: the block named `"TLV" + n` and
      the counter afterwards. */
  function Setup(es: seq<Entry>, n: nat): (r: (Field, nat))
    requires Buildable(es)
    decreases es, 1
  {
    var (cs, k) := Fold(es, n);
    (Block(Name(TLVP, n), cs), k)
  }

  // ---------------------------------------------------------------------
  // The loop of the source

  class FieldTreeBuilder {
    /** The module-level `nameCount`, shared by every call. */
    var nameCount: nat

    constructor ()
      ensures nameCount == 0
    {
      nameCount := 0;
    }

    method SetupFuzzTLV(tlv: seq<Entry>) returns (res: Field)
      requires Buildable(tlv)
      modifies this
      ensures (res, nameCount) == Setup(tlv, old(nameCount))
      decreases tlv
    {
      var curCount := nameCount;
      var children: seq<Field> := [];
      for i := 0 to |tlv|
        invariant (children, nameCount) == Fold(tlv[..i], curCount)
      {
        assert tlv[..i + 1][..i] == tlv[..i];
        match tlv[i] {
          case Tag(el) =>
            children := children + [Bytes(Name(TagP, nameCount), |el|, el, true)];
          case Length(_) =>
            children := children + [Size(Name(LengthP, nameCount), Name(ValueP, nameCount), 1, false)];
          case Value(el) =>
            children := children + [RandomData(Name(ValueP, nameCount), 0, 0xff, el)];
            nameCount := nameCount + 1;
          case TLV(el) =>
            nameCount := nameCount + 1;
            children := Repoint(children, Name(TLVP, nameCount));
            var nested := SetupFuzzTLV(el);
            children := children + [nested];
        }
      }
      assert tlv[..|tlv|] == tlv;
      res := Block(Name(TLVP, curCount), children);
    }
  }

  // ---------------------------------------------------------------------
  // What the tree looks like

  /** How far an entry list moves the counter: one per VALUE entry and one
      per TLV entry, at every depth, counted front to back. */
  function Increments(es: seq<Entry>): (k: nat)
  {
    if es == [] then 0
    else
      (match es[0]
       case Value(_) => 1
       case TLV(c) => 1 + Increments(c)
       case _ => 0)
      + Increments(es[1..])
  }

  lemma {:induction false} IncrementsConcat(a: seq<Entry>, b: seq<Entry>)
    ensures Increments(a + b) == Increments(a) + Increments(b)
    decreases |a|
  {
    if a == [] {
      assert a + b == b;
    } else {
      assert (a + b)[0] == a[0];
      assert (a + b)[1..] == a[1..] + b;
      IncrementsConcat(a[1..], b);
    }
  }

  /** nameCount after a call is its old value plus one per VALUE and one
      per TLV entry of the list, nested lists included. */
  lemma {:induction false} FoldCount(es: seq<Entry>, n: nat)
    requires Buildable(es)
    ensures Fold(es, n).1 == n + Increments(es)
    ensures Setup(es, n).1 == n + Increments(es)
    decreases es
  {
    if es != [] {
      var init, last := es[..|es| - 1], es[|es| - 1];
      BuildableLast(es);
      FoldCount(init, n);
      if last.TLV? {
        FoldCount(last.children, Fold(init, n).1 + 1);
      }
      StepCount(Fold(init, n), last);
      IncrementsConcat(init, [last]);
      assert init + [last] == es;
    }
  }

  /** A buildable list without its last entry is buildable, and so is that
      entry's nested list. */
  lemma BuildableLast(es: seq<Entry>)
    requires Buildable(es) && es != []
    ensures Buildable(es[..|es| - 1])
    ensures es[|es| - 1].TLV? ==> |es| > 1 && Buildable(es[|es| - 1].children)
  {
    var init := es[..|es| - 1];
    assert forall i | 0 <= i < |init| :: init[i] == es[i];
  }

  /** One loop turn moves the counter by the increments of its entry. */
  lemma StepCount(acc: (seq<Field>, nat), e: Entry)
    requires e.TLV? ==> acc.0 != [] && Buildable(e.children)
    requires e.TLV? ==> Setup(e.children, acc.1 + 1).1 == acc.1 + 1 + Increments(e.children)
    ensures Step(acc, e).1 == acc.1 + Increments([e])
  {
    assert [e][1..] == [];
  }

  /** A list whose TLV entries never come first can be cut anywhere and
      the pieces glued back. */
  lemma BuildableConcat(a: seq<Entry>, b: seq<Entry>)
    requires Buildable(a) && Buildable(b)
    ensures Buildable(a + b)
  {
    forall i | 0 <= i < |a + b| && (a + b)[i].TLV?
      ensures i > 0 && Buildable((a + b)[i].children)
    {
      if i < |a| {
        assert (a + b)[i] == a[i];
      } else {
        assert (a + b)[i] == b[i - |a|];
      }
    }
  }

  /** Every list parseTLV returns is one setupFuzzTLV accepts. */
  lemma {:induction false} WellShapedBuildable(es: seq<Entry>)
    requires WellShaped(es)
    ensures Buildable(es)
    decreases es
  {
    if es != [] {
      var x := es[2];
      if x.TLV? {
        WellShapedBuildable(x.children);
      }
      WellShapedBuildable(es[3..]);
      assert Buildable(es[..3]);
      BuildableConcat(es[..3], es[3..]);
      assert es[..3] + es[3..] == es;
    }
  }

  /** A step only touches the children it appends and the one before. */
  lemma StepConcat(a: seq<Field>, b: seq<Field>, m: nat, e: Entry)
    requires e.TLV? ==> b != [] && Buildable(e.children)
    ensures Step((a + b, m), e) == (a + Step((b, m), e).0, Step((b, m), e).1)
  {
    var r := Step((b, m), e).0;
    if e.TLV? {
      var ab := a + b;
      assert ab[..|ab| - 1] == a + b[..|b| - 1];
      assert ab[|ab| - 1] == b[|b| - 1];
      assert Repoint(ab, Name(TLVP, m + 1)) == a + Repoint(b, Name(TLVP, m + 1));
      assert (a + Repoint(b, Name(TLVP, m + 1))) + [r[|r| - 1]] == a + r;
    } else {
      assert (a + b) + [r[|r| - 1]] == a + r;
    }
  }

  /** The loop over `a + b` is the loop over `a` followed by the loop over
      `b` from the counter `a` left. */
  lemma {:induction false} FoldConcat(a: seq<Entry>, b: seq<Entry>, n: nat)
    requires Buildable(a) && Buildable(b)
    ensures Buildable(a + b)
    ensures Fold(a + b, n)
         == (Fold(a, n).0 + Fold(b, Fold(a, n).1).0, Fold(b, Fold(a, n).1).1)
    decreases |b|
  {
    BuildableConcat(a, b);
    if b == [] {
      assert a + b == a;
      assert Fold(a, n).0 + [] == Fold(a, n).0;
    } else {
      var init, last := b[..|b| - 1], b[|b| - 1];
      assert forall i | 0 <= i < |init| :: init[i] == b[i];
      FoldConcat(a, init, n);
      var ab := a + b;
      assert ab[..|ab| - 1] == a + init;
      assert ab[|ab| - 1] == last;
      var m := Fold(a, n).1;
      StepConcat(Fold(a, n).0, Fold(init, m).0, Fold(init, m).1, last);
    }
  }

  /** One triple: the Bytes field of the tag, the Size field of the length
      byte pointing at "Value" + n for a primitive value and at "TLV" + (n+1)
      for a nested list, then the value's own field. */
  lemma TripleFields(tg: seq<byte>, ln: seq<byte>, x: Entry, m: nat)
    requires x.Value? || x.TLV?
    requires x.TLV? ==> Buildable(x.children)
    ensures Buildable([Tag(tg), Length(ln), x])
    ensures var (cs, k) := Fold([Tag(tg), Length(ln), x], m);
      && |cs| == 3
      && cs[0] == Bytes(Name(TagP, m), |tg|, tg, true)
      && cs[1] == Size(Name(LengthP, m), if x.TLV? then Name(TLVP, m + 1) else Name(ValueP, m), 1, false)
      && (x.Value? ==> cs[2] == RandomData(Name(ValueP, m), 0, 0xff, x.value) && k == m + 1)
      && (x.TLV? ==> (cs[2], k) == Setup(x.children, m + 1))
  {
    var es := [Tag(tg), Length(ln), x];
    var t := Bytes(Name(TagP, m), |tg|, tg, true);
    var l := Size(Name(LengthP, m), Name(ValueP, m), 1, false);
    var none: seq<Field> := [];
    assert [Tag(tg)][..0] == [];
    assert Step((none, m), Tag(tg)).0 == none + [t] == [t];
    assert Fold([Tag(tg)], m) == ([t], m);
    assert es[..2] == [Tag(tg), Length(ln)];
    assert es[..2][..1] == [Tag(tg)];
    assert Step(([t], m), Length(ln)).0 == [t] + [l] == [t, l];
    assert Fold(es[..2], m) == ([t, l], m);
  }

  /** A well-shaped list is its first triple followed by the rest. */
  lemma SplitTriple(es: seq<Entry>, n: nat)
    requires WellShaped(es) && es != []
    ensures Buildable(es) && Buildable(es[..3]) && Buildable(es[3..])
    ensures es[..3] == [Tag(es[0].tag), Length(es[1].len), es[2]]
    ensures Fold(es, n)
         == (Fold(es[..3], n).0 + Fold(es[3..], Fold(es[..3], n).1).0,
             Fold(es[3..], Fold(es[..3], n).1).1)
  {
    WellShapedBuildable(es);
    WellShapedBuildable(es[3..]);
    if es[2].TLV? {
      WellShapedBuildable(es[2].children);
    }
    TripleFields(es[0].tag, es[1].len, es[2], n);
    FoldConcat(es[..3], es[3..], n);
    assert es[..3] + es[3..] == es;
  }

  /** Field `f` is the primitive setupFuzzTLV makes for entry `e`: the
      entry's kind, its bytes as default value, the source's constants. */
  predicate Mirrors(f: Field, e: Entry)
    decreases e
  {
    match e
    case Tag(t) => f.Bytes? && f.default == t && f.size == |t| && f.fuzzable
    case Length(_) => f.Size? && f.length == 1 && !f.fuzzable
    case Value(v) => f.RandomData? && f.default == v && f.minLength == 0 && f.maxLength == 0xff
    case TLV(c) =>
      f.Block? && |f.children| == |c| && forall i | 0 <= i < |c| :: Mirrors(f.children[i], c[i])
  }

  /** One primitive per entry, in order, each of the entry's kind and
      holding its bytes; nested lists become nested blocks. */
  lemma {:induction false} FoldMirrors(es: seq<Entry>, n: nat)
    requires Buildable(es)
    ensures forall i | 0 <= i < |es| :: Mirrors(Fold(es, n).0[i], es[i])
    ensures Mirrors(Setup(es, n).0, TLV(es))
    decreases es
  {
    if es != [] {
      var init, last := es[..|es| - 1], es[|es| - 1];
      BuildableLast(es);
      assert forall i | 0 <= i < |init| :: init[i] == es[i];
      FoldMirrors(init, n);
      var (cs, m) := Fold(init, n);
      if last.TLV? {
        FoldMirrors(last.children, m + 1);
        RepointMirrors(cs, init, Name(TLVP, m + 1));
      }
    }
  }

  /** Repointing the last Size field keeps every field mirroring its entry. */
  lemma RepointMirrors(cs: seq<Field>, es: seq<Entry>, target: Name)
    requires cs != [] && |cs| == |es|
    requires forall i | 0 <= i < |cs| :: Mirrors(cs[i], es[i])
    ensures forall i | 0 <= i < |cs| :: Mirrors(Repoint(cs, target)[i], es[i])
  {
    var rs := Repoint(cs, target);
    forall i | 0 <= i < |cs|
      ensures Mirrors(rs[i], es[i])
    {
      if i < |cs| - 1 {
        assert rs[i] == rs[..|cs| - 1][i];
      }
    }
  }

  // ---------------------------------------------------------------------
  // Links from length fields to the fields they measure

  /** Every Size field has a successor, and its block name is that
      successor's name; the same holds inside every block. */
  predicate Linked(fs: seq<Field>)
  {
    && (forall i | 0 <= i < |fs| :: fs[i].Size? ==> i + 1 < |fs| && fs[i].blockName == fs[i + 1].name)
    && (forall i | 0 <= i < |fs| :: fs[i].Block? ==> Linked(fs[i].children))
  }

  lemma LinkedConcat(a: seq<Field>, b: seq<Field>)
    requires Linked(a) && Linked(b)
    ensures Linked(a + b)
  {
    forall i | 0 <= i < |a + b|
      ensures (a + b)[i].Size? ==> i + 1 < |a + b| && (a + b)[i].blockName == (a + b)[i + 1].name
      ensures (a + b)[i].Block? ==> Linked((a + b)[i].children)
    {
      if i < |a| {
        assert (a + b)[i] == a[i];
        if i + 1 < |a| {
          assert (a + b)[i + 1] == a[i + 1];
        }
      } else {
        assert (a + b)[i] == b[i - |a|];
        if i + 1 < |a + b| {
          assert (a + b)[i + 1] == b[i + 1 - |a|];
        }
      }
    }
  }

  /** The fields of one triple are linked once the nested block is. */
  lemma TripleLinked(tg: seq<byte>, ln: seq<byte>, x: Entry, m: nat)
    requires x.Value? || x.TLV?
    requires x.TLV? ==> Buildable(x.children) && Linked([Setup(x.children, m + 1).0])
    ensures Buildable([Tag(tg), Length(ln), x])
    ensures Linked(Fold([Tag(tg), Length(ln), x], m).0)
  {
    TripleFields(tg, ln, x, m);
    var ts := Fold([Tag(tg), Length(ln), x], m).0;
    forall i | 0 <= i < 3
      ensures ts[i].Size? ==> i + 1 < 3 && ts[i].blockName == ts[i + 1].name
      ensures ts[i].Block? ==> Linked(ts[i].children)
    {
      if i == 2 && x.TLV? {
        assert [Setup(x.children, m + 1).0][0] == ts[2];
      }
    }
  }

  /** In the tree built from a list parseTLV returns, every length field
      names the field right after it, at every depth. */
  lemma {:induction false} FoldLinked(es: seq<Entry>, n: nat)
    requires WellShaped(es)
    ensures Buildable(es)
    ensures Linked(Fold(es, n).0)
    ensures Linked([Setup(es, n).0])
    decreases es
  {
    WellShapedBuildable(es);
    if es != [] {
      SplitTriple(es, n);
      var x := es[2];
      if x.TLV? {
        FoldLinked(x.children, n + 1);
      }
      TripleLinked(es[0].tag, es[1].len, x, n);
      var (ts, k) := Fold(es[..3], n);
      FoldLinked(es[3..], k);
      LinkedConcat(ts, Fold(es[3..], k).0);
    }
  }

  // ---------------------------------------------------------------------
  // Distinct names

  /** Every name a tree declares, a block's own name before its children's. */
  function Declared(f: Field): (ns: seq<Name>)
    decreases f
  {
    match f
    case Block(nm, cs) => [nm] + DeclaredAll(cs)
    case _ => [f.name]
  }

  function DeclaredAll(fs: seq<Field>): (ns: seq<Name>)
    decreases fs
  {
    if fs == [] then [] else Declared(fs[0]) + DeclaredAll(fs[1..])
  }

  /** No name is declared twice. */
  predicate Distinct(ns: seq<Name>)
  {
    forall i, j | 0 <= i < j < |ns| :: ns[i] != ns[j]
  }

  /** The Tag, Length and Value names use counter values in `[lo, hi)`. */
  predicate LeavesIn(ns: seq<Name>, lo: nat, hi: nat)
  {
    forall i | 0 <= i < |ns| :: ns[i].prefix != TLVP ==> lo <= ns[i].n < hi
  }

  /** The TLV names use counter values in `[lo, hi]`. */
  predicate BlocksIn(ns: seq<Name>, lo: nat, hi: nat)
  {
    forall i | 0 <= i < |ns| :: ns[i].prefix == TLVP ==> lo <= ns[i].n <= hi
  }

  lemma {:induction false} DeclaredAllConcat(a: seq<Field>, b: seq<Field>)
    ensures DeclaredAll(a + b) == DeclaredAll(a) + DeclaredAll(b)
    decreases |a|
  {
    if a == [] {
      assert a + b == b;
    } else {
      assert (a + b)[0] == a[0];
      assert (a + b)[1..] == a[1..] + b;
      DeclaredAllConcat(a[1..], b);
    }
  }

  lemma DeclaredTriple(cs: seq<Field>)
    requires |cs| == 3
    ensures DeclaredAll(cs) == Declared(cs[0]) + Declared(cs[1]) + Declared(cs[2])
  {
    assert cs[1..][1..][1..] == [];
    assert DeclaredAll(cs[1..][1..]) == Declared(cs[2]);
  }

  /** Two name lists from consecutive counter ranges share no name. */
  lemma DistinctConcat(a: seq<Name>, b: seq<Name>, lo: nat, lmid: nat, blo: nat, bmid: nat, hi: nat)
    requires lo <= lmid <= hi && blo <= bmid + 1 && bmid <= hi
    requires Distinct(a) && LeavesIn(a, lo, lmid) && BlocksIn(a, blo, bmid)
    requires Distinct(b) && LeavesIn(b, lmid, hi) && BlocksIn(b, bmid + 1, hi)
    ensures Distinct(a + b)
    ensures LeavesIn(a + b, lo, hi) && BlocksIn(a + b, blo, hi)
  {
    var ab := a + b;
    forall i, j | 0 <= i < j < |ab|
      ensures ab[i] != ab[j]
    {
      if j < |a| {
        assert ab[i] == a[i] && ab[j] == a[j];
      } else if i >= |a| {
        assert ab[i] == b[i - |a|] && ab[j] == b[j - |a|];
      } else {
        assert ab[i] == a[i] && ab[j] == b[j - |a|];
      }
    }
    forall i | 0 <= i < |ab|
      ensures ab[i].prefix != TLVP ==> lo <= ab[i].n < hi
      ensures ab[i].prefix == TLVP ==> blo <= ab[i].n <= hi
    {
      if i < |a| {
        assert ab[i] == a[i];
      } else {
        assert ab[i] == b[i - |a|];
      }
    }
  }

  /** The names of one triple: the tag and length share the counter value
      `m` of the value they precede, a nested block takes its names above it. */
  lemma {:induction false} TripleNames(tg: seq<byte>, ln: seq<byte>, x: Entry, m: nat)
    requires x.Value? || (x.TLV? && WellShaped(x.children))
    ensures Buildable([Tag(tg), Length(ln), x])
    ensures var (cs, k) := Fold([Tag(tg), Length(ln), x], m);
      var ns := DeclaredAll(cs);
      Distinct(ns) && LeavesIn(ns, m, k) && BlocksIn(ns, m + 1, k) && m < k
    decreases x, 0
  {
    if x.TLV? {
      WellShapedBuildable(x.children);
    }
    TripleFields(tg, ln, x, m);
    var (cs, k) := Fold([Tag(tg), Length(ln), x], m);
    DeclaredTriple(cs);
    var head := [Name(TagP, m), Name(LengthP, m)];
    assert Declared(cs[0]) + Declared(cs[1]) == head;
    if x.TLV? {
      SetupNames(x.children, m + 1);
      DistinctConcat(head, Declared(cs[2]), m, m + 1, m + 1, m, k);
    } else {
      assert DeclaredAll(cs) == head + [Name(ValueP, m)];
    }
  }

  /** The names of the children built from a list parseTLV returns are
      pairwise distinct, from counter values between `n` and the final `k`. */
  lemma {:induction false} FoldNames(es: seq<Entry>, n: nat)
    requires WellShaped(es)
    ensures Buildable(es)
    ensures var (cs, k) := Fold(es, n);
      var ns := DeclaredAll(cs);
      Distinct(ns) && LeavesIn(ns, n, k) && BlocksIn(ns, n + 1, k)
    decreases es, 1
  {
    WellShapedBuildable(es);
    if es != [] {
      SplitTriple(es, n);
      TripleNames(es[0].tag, es[1].len, es[2], n);
      var (ts, mid) := Fold(es[..3], n);
      FoldNames(es[3..], mid);
      var (rs, k) := Fold(es[3..], mid);
      DeclaredAllConcat(ts, rs);
      DistinctConcat(DeclaredAll(ts), DeclaredAll(rs), n, mid, n + 1, mid, k);
    }
  }

  /** No two primitives of one setupFuzzTLV call on a list parseTLV
      returns share a name; the block is "TLV" + n, the leaves use counter
      values below the final counter `k`, the blocks values up to `k`. */
  lemma {:induction false} SetupNames(es: seq<Entry>, n: nat)
    requires WellShaped(es)
    ensures Buildable(es)
    ensures var (f, k) := Setup(es, n);
      var ns := Declared(f);
      Distinct(ns) && LeavesIn(ns, n, k) && BlocksIn(ns, n, k) && ns[0] == Name(TLVP, n)
    decreases es, 2
  {
    FoldNames(es, n);
    var (cs, k) := Fold(es, n);
    DistinctConcat([Name(TLVP, n)], DeclaredAll(cs), n, n, n, n, k);
  }

  /** Distinct names print as distinct strings. */
  lemma DistinctRendered(ns: seq<Name>)
    requires Distinct(ns)
    ensures forall i, j | 0 <= i < j < |ns| :: Render(ns[i]) != Render(ns[j])
  {
    forall i, j | 0 <= i < j < |ns|
      ensures Render(ns[i]) != Render(ns[j])
    {
      RenderInjective(ns[i], ns[j]);
    }
  }

  /** Two calls in a row, as the fuzzer makes one per captured packet: the
      only name both trees can declare is the block name "TLV" + k, k being
      the counter between the calls. */
  lemma SuccessiveCalls(es1: seq<Entry>, es2: seq<Entry>, n: nat)
    requires WellShaped(es1) && WellShaped(es2)
    ensures Buildable(es1) && Buildable(es2)
    ensures var (f1, k1) := Setup(es1, n);
      var ns1, ns2 := Declared(f1), Declared(Setup(es2, k1).0);
      forall i, j | 0 <= i < |ns1| && 0 <= j < |ns2| :: ns1[i] == ns2[j] ==> ns1[i] == Name(TLVP, k1)
  {
    SetupNames(es1, n);
    var k1 := Setup(es1, n).1;
    SetupNames(es2, k1);
  }

  /** The shared block name does occur: the first packet ends with an empty
      constructed value (bytes A0 00), so its nested block "TLV1" takes the
      counter value the next call starts its own block with. */
  lemma BlockNameReuse(es: seq<Entry>)
    requires es == [Tag([0xA0]), Length([0x00]), TLV([])]
    ensures Buildable(es)
    ensures var (f1, k1) := Setup(es, 0);
      && k1 == 1
      && Name(TLVP, 1) in Declared(f1)
      && Setup([Tag([0x80]), Length([0x00]), Value([])], k1).0.name == Name(TLVP, 1)
  {
    TripleFields([0xA0], [0x00], TLV([]), 0);
    var (cs, k) := Fold(es, 0);
    DeclaredTriple(cs);
    assert Declared(cs[2]) == [Name(TLVP, 1)];
  }

  /** The list of that example is what parseTLV returns for A0 00. */
  lemma EmptyConstructedParse()
    ensures Parsable([0xA0, 0x00])
    ensures Parse([0xA0, 0x00]) == [Tag([0xA0]), Length([0x00]), TLV([])]
  {
    var es := [Tag([0xA0]), Length([0x00]), TLV([])];
    TagBitTests(0xA0);
    assert EntryBytes(TLV([])) == [];
    assert es[3..] == [];
    assert Framed(es);
    assert Recompose(es) == [0xA0, 0x00] by {
      RecomposeTriple(Tag([0xA0]), Length([0x00]), TLV([]), []);
      assert es == [Tag([0xA0]), Length([0x00]), TLV([])] + [];
    }
    ParseRecompose(es);
  }
}
