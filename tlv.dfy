/**
 * The fuzzer's tag-length-value codec: `parseTLV` splits a buffer into a
 * flat list of (tag, length, value-or-nested-list) triples following the
 * BER tag rules of ITU-T X.690 (section 8.1.2.5 for the constructed bit,
 * section 8.1.2.4 for the high-tag-number form) with a single-byte length,
 * and `recomposeTLV` concatenates such a list back into bytes.
 *
 * `Parse` and `Recompose` are the specifications; `ParseTLV` and
 * `RecomposeTLV` are the loops of the source, proved against them.
 */
module Tlv {
  import opened Bits

  datatype Option<T> = None | Some(value: T)

  /** One entry of the list `parseTLV` builds: the source pairs a FieldType
      (TAG, LENGTH, VALUE, TLV) with its payload. */
  datatype Entry =
    | Tag(tag: seq<byte>)
    | Length(len: seq<byte>)
    | Value(value: seq<byte>)
    | TLV(children: seq<Entry>)

  function Min(a: int, b: int): (m: int) { if a <= b then a else b }

  /** Python's slice `s[lo:hi]` for non-negative bounds: both ends are cut
      down to `|s|`, and an empty range gives the empty sequence. */
  function Slice(s: seq<byte>, lo: nat, hi: nat): (r: seq<byte>)
    ensures |r| <= |s|
    ensures lo <= hi <= |s| ==> r == s[lo..hi]
  {
    if |s| <= lo || hi <= lo then [] else s[lo..Min(hi, |s|)]
  }

  /** True when bit 5 of the first tag byte (the P/C bit) is set. */
  predicate Constructed(tag: seq<byte>)
    requires |tag| > 0
  {
    GetBit(tag[0], 5) == 1
  }

  /** The shape of a BER tag: one byte whose low five bits are not all ones,
      or such a first byte followed by continuation bytes with bit 7 set and
      a last byte with bit 7 clear. */
  predicate ValidTag(tag: seq<byte>)
  {
    && |tag| >= 1
    && (GetBits(tag[0], 0, 4) != 31 ==> |tag| == 1)
    && (GetBits(tag[0], 0, 4) == 31 ==>
          && |tag| >= 2
          && (forall i :: 1 <= i < |tag| - 1 ==> GetBit(tag[i], 7) == 1)
          && GetBit(tag[|tag| - 1], 7) == 0)
  }

  /** Where the continuation run of a long tag that starts at `j` ends: one
      past the first byte at or after `j` whose bit 7 is clear. None when
      every byte from `j` on has bit 7 set, the case of a tag that does not
      end inside the buffer. */
  function ContinuationEnd(s: seq<byte>, j: nat): (r: Option<nat>)
    ensures r.Some? ==> j < r.value <= |s|
    decreases |s| - j
  {
    if |s| <= j then None
    else if GetBit(s[j], 7) == 1 then ContinuationEnd(s, j + 1)
    else Some(j + 1)
  }

  /** The number of tag bytes at the front of `s`, or None when the tag
      does not end inside `s`. */
  function TagLength(s: seq<byte>): (r: Option<nat>)
    requires |s| > 0
    ensures r.Some? ==> 1 <= r.value <= |s|
  {
    if GetBits(s[0], 0, 4) == 31 then ContinuationEnd(s, 1) else Some(1)
  }

  /** Tag, length byte and value of the first element of `s`, and where the
      next element starts: the cursor moves by `tagLen + 1 + length`. */
  function TagEnd(s: seq<byte>): (t: nat)
    requires |s| > 0 && TagLength(s).Some?
  {
    TagLength(s).value
  }

  /** The value slice after a tag of `t` bytes and its length byte. */
  function ValueAt(s: seq<byte>, t: nat): (v: seq<byte>)
    requires t < |s|
    ensures |v| < |s|
  {
    Slice(s, t + 1, t + 1 + s[t])
  }

  /** The bytes after the value: where the cursor moves next. */
  function RestAt(s: seq<byte>, t: nat): (r: seq<byte>)
    requires t < |s|
    ensures |r| < |s|
  {
    Slice(s, t + 1 + s[t], |s|)
  }

  /** The buffers on which parseTLV returns. It does not return when a long
      tag does not end inside the buffer (`ContinuationEndNone` says which
      of the two failures follows) or when no byte is left for the length
      (indexing raises IndexError). A length byte larger than what is left
      is not an error: the value slice is cut short and the cursor jumps
      past the end, which ends the loop. */
  predicate Parsable(s: seq<byte>)
    decreases |s|
  {
    |s| == 0 ||
    (&& TagLength(s).Some?
     && TagEnd(s) < |s|
     && (Constructed(s) ==> Parsable(ValueAt(s, TagEnd(s))))
     && Parsable(RestAt(s, TagEnd(s))))
  }

  /** What parseTLV returns for a buffer on which it returns. */
  function Parse(s: seq<byte>): (es: seq<Entry>)
    requires Parsable(s)
    decreases |s|, 1
  {
    if |s| == 0 then []
    else [Tag(s[..TagEnd(s)]), Length([s[TagEnd(s)]]), ValueEntry(s)] + Parse(RestAt(s, TagEnd(s)))
  }

  /** The third entry for the element at the front of `s`: the nested list
      when the tag is constructed, the raw value bytes otherwise. */
  function ValueEntry(s: seq<byte>): (e: Entry)
    requires |s| > 0 && TagLength(s).Some? && TagEnd(s) < |s|
    requires Constructed(s) ==> Parsable(ValueAt(s, TagEnd(s)))
    decreases |s|, 0
  {
    if Constructed(s) then TLV(Parse(ValueAt(s, TagEnd(s)))) else Value(ValueAt(s, TagEnd(s)))
  }

  /** recomposeTLV as a fold: every payload in order, nested lists recomposed. */
  function Recompose(es: seq<Entry>): (bs: seq<byte>)
    decreases es
  {
    if es == [] then [] else EntryBytes(es[0]) + Recompose(es[1..])
  }

  function EntryBytes(e: Entry): (bs: seq<byte>)
    decreases e
  {
    match e
    case Tag(b) => b
    case Length(b) => b
    case Value(b) => b
    case TLV(c) => Recompose(c)
  }

  /** The number of bytes an entry list stands for, counted entry by entry. */
  function Width(es: seq<Entry>): (w: nat)
  {
    if es == [] then 0
    else
      (match es[0]
       case Tag(b) => |b|
       case Length(b) => |b|
       case Value(b) => |b|
       case TLV(c) => Width(c))
      + Width(es[1..])
  }

  /** The list shape parseTLV produces: triples TAG, LENGTH, VALUE or TLV,
      with a well-formed tag, a one-byte length, and a nested (itself well
      shaped) list exactly when the tag's constructed bit is set. */
  predicate WellShaped(es: seq<Entry>)
  {
    es == [] ||
    (&& |es| >= 3
     && es[0].Tag? && ValidTag(es[0].tag)
     && es[1].Length? && |es[1].len| == 1
     && (es[2].Value? || es[2].TLV?)
     && (es[2].TLV? <==> Constructed(es[0].tag))
     && (es[2].TLV? ==> WellShaped(es[2].children))
     && WellShaped(es[3..]))
  }

  /** A well-shaped list whose every length byte equals the size of the
      value it precedes. */
  predicate Framed(es: seq<Entry>)
  {
    es == [] ||
    (&& |es| >= 3
     && es[0].Tag? && ValidTag(es[0].tag)
     && es[1].Length? && |es[1].len| == 1
     && (es[2].Value? || es[2].TLV?)
     && (es[2].TLV? <==> Constructed(es[0].tag))
     && es[1].len[0] == |EntryBytes(es[2])|
     && (es[2].TLV? ==> Framed(es[2].children))
     && Framed(es[3..]))
  }

  // ---------------------------------------------------------------------
  // The loops of the source

  /** parseTLV: a cursor loop with an inner loop growing a long tag, a
      recursive call for a constructed value. */
  method ParseTLV(block: seq<byte>) returns (res: seq<Entry>)
    requires Parsable(block)
    ensures res == Parse(block)
    ensures WellShaped(res) && Recompose(res) == block
    ensures block == [] ==> res == []
    decreases |block|
  {
    res := [];
    var cur := 0;
    var l := |block|;
    assert Slice(block, cur, l) == block;
    while cur < l
      invariant Parsable(Slice(block, cur, l))
      invariant Parse(block) == res + Parse(Slice(block, cur, l))
      decreases l - cur
    {
      ghost var done, start := res, cur;
      ElementBounds(block, start);
      var tag, tagLen := ReadTag(block, cur);
      res := res + [Tag(tag)];
      var length := block[cur + tagLen];
      res := res + [Length([length])];
      var value := Slice(block, cur + tagLen + 1, cur + tagLen + 1 + length);
      ValueBounds(block, start, tag, tagLen, length);
      cur := cur + length + tagLen + 1;
      ghost var third;
      if GetBit(tag[0], 5) == 1 {
        var nested := ParseTLV(value);
        res := res + [TLV(nested)];
        third := TLV(nested);
      } else {
        res := res + [Value(value)];
        third := Value(value);
      }
      Advance(block, start, tag, tagLen, length, value, third, cur);
      AppendTriple(done, Tag(tag), Length([length]), third, Parse(Slice(block, cur, l)));
    }
    assert Slice(block, cur, l) == [];
    ParseWellShaped(block);
    RoundTrip(block);
  }

  /** The tag loop of parseTLV: one byte, and for the high-tag-number form
      further bytes for as long as the last one read has bit 7 set. */
  method ReadTag(block: seq<byte>, cur: nat) returns (tag: seq<byte>, tagLen: nat)
    requires cur < |block| && TagLength(block[cur..]).Some?
    ensures tagLen == TagEnd(block[cur..]) && cur + tagLen <= |block|
    ensures tag == block[cur..][..tagLen]
  {
    ghost var s := block[cur..];
    tagLen := 1;
    tag := block[cur..cur + 1];
    if GetBits(tag[|tag| - 1], 0, 4) == 31 {
      tagLen := tagLen + 1;
      tag := block[cur..cur + tagLen];
      while GetBit(tag[|tag| - 1], 7) == 1
        invariant 2 <= tagLen <= TagEnd(s)
        invariant ContinuationEnd(s, tagLen - 1) == TagLength(s)
        invariant tag == block[cur..cur + tagLen]
        decreases TagEnd(s) - tagLen
      {
        tagLen := tagLen + 1;
        tag := block[cur..cur + tagLen];
      }
    }
  }

  /** The element at `start` has a complete tag and a length byte. */
  lemma ElementBounds(block: seq<byte>, start: nat)
    requires start < |block| && Parsable(Slice(block, start, |block|))
    ensures TagLength(block[start..]).Some?
    ensures start + TagEnd(block[start..]) < |block|
  {
    var s := block[start..];
    assert s == Slice(block, start, |block|);
    ParsableUnfold(s);
  }

  /** The value slice of the element at `start` is shorter than the buffer,
      and parses when the tag is constructed. */
  lemma ValueBounds(block: seq<byte>, start: nat, tag: seq<byte>, tagLen: nat, length: byte)
    requires start < |block| && Parsable(Slice(block, start, |block|))
    requires TagLength(block[start..]).Some? && tagLen == TagEnd(block[start..])
    requires start + tagLen < |block| && length == block[start + tagLen]
    requires tag == block[start..][..tagLen]
    ensures var value := Slice(block, start + tagLen + 1, start + tagLen + 1 + length);
            && |value| < |block|
            && (GetBit(tag[0], 5) == 1 ==> Parsable(value))
  {
    ElementSlices(block, start, tagLen, length);
    ParsableUnfold(block[start..]);
    assert tag[0] == block[start..][0];
  }

  /** One turn of the cursor loop: the element at `start` contributes its
      tag, its length byte and its value or nested list, and the cursor
      moves to `next`, past all three. */
  lemma Advance(block: seq<byte>, start: nat, tag: seq<byte>, tagLen: nat,
                length: byte, value: seq<byte>, third: Entry, next: nat)
    requires start < |block| && Parsable(Slice(block, start, |block|))
    requires TagLength(block[start..]).Some? && tagLen == TagEnd(block[start..])
    requires start + tagLen < |block| && length == block[start + tagLen]
    requires tag == block[start..][..tagLen]
    requires value == Slice(block, start + tagLen + 1, start + tagLen + 1 + length)
    requires next == start + length + tagLen + 1
    requires GetBit(tag[0], 5) == 1 ==> Parsable(value) && third == TLV(Parse(value))
    requires GetBit(tag[0], 5) != 1 ==> third == Value(value)
    ensures Parsable(Slice(block, next, |block|))
    ensures Parse(Slice(block, start, |block|)) == [Tag(tag), Length([length]), third] + Parse(Slice(block, next, |block|))
  {
    var s := block[start..];
    ElementSlices(block, start, tagLen, length);
    ParseHead(s, tag, tagLen, length, third);
    assert Slice(block, next, |block|) == RestAt(s, tagLen);
  }

  /** The first triple of a non-empty parsable buffer, given its parts. */
  lemma ParseHead(s: seq<byte>, tag: seq<byte>, tagLen: nat, length: byte, third: Entry)
    requires |s| > 0 && Parsable(s)
    requires TagLength(s).Some? && tagLen == TagEnd(s) && tagLen < |s|
    requires tag == s[..tagLen] && length == s[tagLen]
    requires GetBit(tag[0], 5) == 1 ==> Parsable(ValueAt(s, tagLen)) && third == TLV(Parse(ValueAt(s, tagLen)))
    requires GetBit(tag[0], 5) != 1 ==> third == Value(ValueAt(s, tagLen))
    ensures Parsable(RestAt(s, tagLen))
    ensures Parse(s) == [Tag(tag), Length([length]), third] + Parse(RestAt(s, tagLen))
  {
    assert tag[0] == s[0];
  }

  /** The slices the cursor loop takes at `start` are the value and the rest
      of the element at the front of the buffer from `start` on. */
  lemma ElementSlices(block: seq<byte>, start: nat, tagLen: nat, length: byte)
    requires start + tagLen < |block| && length == block[start + tagLen]
    ensures Slice(block, start, |block|) == block[start..]
    ensures block[start..][tagLen] == length
    ensures Slice(block, start + tagLen + 1, start + tagLen + 1 + length) == ValueAt(block[start..], tagLen)
    ensures Slice(block, start + length + tagLen + 1, |block|) == RestAt(block[start..], tagLen)
  {
    var s := block[start..];
    assert s[tagLen] == length;
    SliceShift(block, start, tagLen + 1, tagLen + 1 + length,
               start + tagLen + 1, start + tagLen + 1 + length);
    SliceShift(block, start, tagLen + 1 + length, |s|, start + length + tagLen + 1, |block|);
  }

  /** What a non-empty parsable buffer guarantees about its first element. */
  lemma ParsableUnfold(s: seq<byte>)
    requires |s| > 0 && Parsable(s)
    ensures TagLength(s).Some? && TagEnd(s) < |s|
    ensures Constructed(s) ==> Parsable(ValueAt(s, TagEnd(s)))
    ensures Parsable(RestAt(s, TagEnd(s)))
  {
  }

  /** Appending three entries one at a time, as parseTLV does. */
  lemma AppendTriple(done: seq<Entry>, a: Entry, b: Entry, c: Entry, rest: seq<Entry>)
    ensures done + [a] + [b] + [c] + rest == done + ([a, b, c] + rest)
  {
  }

  /** recomposeTLV: a loop appending each entry's bytes, recursing into
      nested lists. */
  method RecomposeTLV(tlv: seq<Entry>) returns (res: seq<byte>)
    ensures res == Recompose(tlv)
    decreases tlv
  {
    res := [];
    for i := 0 to |tlv|
      invariant res == Recompose(tlv[..i])
    {
      var el := tlv[i];
      match el {
        case Tag(b) => res := res + b;
        case Length(b) => res := res + b;
        case Value(b) => res := res + b;
        case TLV(c) =>
          var nested := RecomposeTLV(c);
          res := res + nested;
      }
      RecomposeConcat(tlv[..i], [el]);
      assert tlv[..i + 1] == tlv[..i] + [el];
    }
    assert tlv[..|tlv|] == tlv;
  }

  // ---------------------------------------------------------------------
  // Lemmas

  /** Slicing after the cursor is slicing the rest of the buffer. */
  lemma SliceShift(s: seq<byte>, cur: nat, lo: nat, hi: nat, lo': nat, hi': nat)
    requires cur <= |s| && lo' == cur + lo && hi' == cur + hi
    ensures Slice(s, lo', hi') == Slice(s[cur..], lo, hi)
  {
  }

  /** A value slice followed by the rest of the buffer is everything after
      the length byte. */
  lemma SliceSplit(s: seq<byte>, lo: nat, mid: nat)
    requires lo <= mid && lo <= |s|
    ensures Slice(s, lo, mid) + Slice(s, mid, |s|) == s[lo..]
  {
    if mid < |s| {
      assert s[lo..] == s[lo..mid] + s[mid..];
    } else {
      assert Slice(s, mid, |s|) == [];
      assert Slice(s, lo, mid) == s[lo..];
    }
  }

  /** recomposeTLV distributes over list concatenation. */
  lemma {:induction false} RecomposeConcat(a: seq<Entry>, b: seq<Entry>)
    ensures Recompose(a + b) == Recompose(a) + Recompose(b)
    decreases |a|
  {
    if a != [] {
      assert (a + b)[0] == a[0];
      assert (a + b)[1..] == a[1..] + b;
      RecomposeConcat(a[1..], b);
      calc {
        Recompose(a + b);
        EntryBytes(a[0]) + Recompose(a[1..] + b);
        EntryBytes(a[0]) + (Recompose(a[1..]) + Recompose(b));
        (EntryBytes(a[0]) + Recompose(a[1..])) + Recompose(b);
      }
    } else {
      assert a + b == b;
    }
  }

  /** The recomposed length is the sum of the entries' byte lengths. */
  lemma {:induction false} RecomposeWidth(es: seq<Entry>)
    ensures |Recompose(es)| == Width(es)
    decreases es
  {
    if es != [] {
      RecomposeWidth(es[1..]);
      match es[0]
      case TLV(c) => RecomposeWidth(c);
      case _ =>
    }
  }

  /** Every list parseTLV returns comes in well-shaped triples. */
  lemma {:induction false} ParseWellShaped(s: seq<byte>)
    requires Parsable(s)
    ensures WellShaped(Parse(s))
    decreases |s|
  {
    if |s| > 0 {
      var es := Parse(s);
      if Constructed(s) {
        ParseWellShaped(ValueAt(s, TagEnd(s)));
      }
      ParseWellShaped(RestAt(s, TagEnd(s)));
      TagShape(s);
      assert es[3..] == Parse(RestAt(s, TagEnd(s)));
      assert s[..TagEnd(s)][0] == s[0];
    }
  }

  /** Round trip: recomposing what parseTLV returns gives back the buffer,
      byte for byte, whenever parseTLV returns. */
  lemma {:induction false} RoundTrip(s: seq<byte>)
    requires Parsable(s)
    ensures Recompose(Parse(s)) == s
    decreases |s|
  {
    if |s| > 0 {
      ParsableUnfold(s);
      var t := TagEnd(s);
      var v, r := ValueAt(s, t), RestAt(s, t);
      var third := ValueEntry(s);
      assert s[..t][0] == s[0];
      ParseHead(s, s[..t], t, s[t], third);
      RoundTrip(r);
      if Constructed(s) {
        RoundTrip(v);
      }
      assert EntryBytes(third) == v;
      RecomposeTriple(Tag(s[..t]), Length([s[t]]), third, Parse(r));
      ElementSplit(s, t);
    }
  }

  /** A buffer is its tag, its length byte, its value and the rest. */
  lemma ElementSplit(s: seq<byte>, t: nat)
    requires t < |s|
    ensures s == s[..t] + [s[t]] + ValueAt(s, t) + RestAt(s, t)
  {
    SliceSplit(s, t + 1, t + 1 + s[t]);
    assert s == s[..t] + [s[t]] + s[t + 1..];
  }

  /** Recomposing a list that starts with three entries. */
  lemma RecomposeTriple(a: Entry, b: Entry, c: Entry, rest: seq<Entry>)
    ensures Recompose([a, b, c] + rest) == EntryBytes(a) + EntryBytes(b) + EntryBytes(c) + Recompose(rest)
  {
    var es := [a, b, c] + rest;
    assert es[1..] == [b, c] + rest;
    assert es[1..][1..] == [c] + rest;
    assert es[1..][1..][1..] == rest;
    calc {
      Recompose(es);
      EntryBytes(a) + Recompose([b, c] + rest);
      EntryBytes(a) + (EntryBytes(b) + Recompose([c] + rest));
      EntryBytes(a) + (EntryBytes(b) + (EntryBytes(c) + Recompose(rest)));
      EntryBytes(a) + EntryBytes(b) + EntryBytes(c) + Recompose(rest);
    }
  }

  /** A buffer is parsable once its first element is complete and what it
      nests and what follows it are parsable. */
  lemma ParsableFold(s: seq<byte>)
    requires |s| > 0 && TagLength(s).Some? && TagEnd(s) < |s|
    requires Constructed(s) ==> Parsable(ValueAt(s, TagEnd(s)))
    requires Parsable(RestAt(s, TagEnd(s)))
    ensures Parsable(s)
  {
  }

  /** A long tag's continuation run is found wherever it ends, whatever
      follows it. */
  lemma {:induction false} ContinuationEndAt(s: seq<byte>, j: nat, e: nat)
    requires j < e <= |s|
    requires forall i :: j <= i < e - 1 ==> GetBit(s[i], 7) == 1
    requires GetBit(s[e - 1], 7) == 0
    ensures ContinuationEnd(s, j) == Some(e)
    decreases e - j
  {
    if j < e - 1 {
      ContinuationEndAt(s, j + 1, e);
    }
  }

  /** A continuation run found from `j` has bit 7 set on every byte but
      its last, which has bit 7 clear. */
  lemma {:induction false} ContinuationEndShape(s: seq<byte>, j: nat)
    requires ContinuationEnd(s, j).Some?
    ensures var e := ContinuationEnd(s, j).value;
            && (forall i :: j <= i < e - 1 ==> GetBit(s[i], 7) == 1)
            && GetBit(s[e - 1], 7) == 0
    decreases |s| - j
  {
    if GetBit(s[j], 7) == 1 {
      ContinuationEndShape(s, j + 1);
    }
  }

  /** No continuation run is found exactly when every byte from `j` on has
      bit 7 set. For the tag at the front of a buffer (`j == 1`) parseTLV
      then does not return: if a byte follows the first, or the first byte
      itself has bit 7 set, the slice the tag loop re-reads cannot grow past
      the end and the loop never stops; if the first byte is the last one
      and has bit 7 clear, the loop stops and reading the length byte
      raises IndexError. */
  lemma {:induction false} ContinuationEndNone(s: seq<byte>, j: nat)
    ensures ContinuationEnd(s, j).None? <==> forall i :: j <= i < |s| ==> GetBit(s[i], 7) == 1
    decreases |s| - j
  {
    if j < |s| {
      ContinuationEndNone(s, j + 1);
    }
  }

  /** The tag parseTLV reads has the shape of a BER tag. */
  lemma TagShape(s: seq<byte>)
    requires |s| > 0 && TagLength(s).Some?
    ensures ValidTag(s[..TagEnd(s)])
  {
    if GetBits(s[0], 0, 4) == 31 {
      ContinuationEndShape(s, 1);
    }
  }

  lemma TagLengthOfValidTag(tag: seq<byte>, more: seq<byte>)
    requires ValidTag(tag)
    ensures TagLength(tag + more) == Some(|tag|)
  {
    var s := tag + more;
    if GetBits(tag[0], 0, 4) == 31 {
      ContinuationEndAt(s, 1, |tag|);
    }
  }

  /** The bytes of one framed element: a tag, its length byte, a value of
      exactly that length, and whatever follows. */
  lemma ElementOf(tag: seq<byte>, length: byte, v: seq<byte>, r: seq<byte>)
    requires ValidTag(tag) && |v| == length
    ensures var s := tag + ([length] + v + r);
            && TagLength(s) == Some(|tag|)
            && s[..|tag|] == tag && s[|tag|] == length && s[0] == tag[0]
            && ValueAt(s, |tag|) == v && RestAt(s, |tag|) == r
  {
    var s := tag + ([length] + v + r);
    TagLengthOfValidTag(tag, [length] + v + r);
    var t := |tag|;
    assert s[t + 1..t + 1 + length] == v;
    assert s[t + 1 + length..] == r;
  }

  /** The other round trip: a framed list, recomposed, parses back to itself. */
  lemma {:induction false} ParseRecompose(es: seq<Entry>)
    requires Framed(es)
    ensures Parsable(Recompose(es)) && Parse(Recompose(es)) == es
    decreases es
  {
    if es != [] {
      var tag, length, third, rest := es[0].tag, es[1].len[0], es[2], es[3..];
      var v, r := EntryBytes(third), Recompose(rest);
      assert es == [es[0], es[1], third] + rest;
      RecomposeTriple(es[0], es[1], third, rest);
      assert es[1].len == [length];
      var s := Recompose(es);
      assert s == tag + ([length] + v + r);
      ElementOf(tag, length, v, r);
      var t := |tag|;
      if third.TLV? {
        ParseRecompose(third.children);
      }
      ParseRecompose(rest);
      ParsableFold(s);
      ParseHead(s, tag, t, length, third);
    }
  }

  /** A constructed tag 0xA0 holding one primitive element, and back. */
  lemma ExampleConstructed()
    ensures Parsable([0xA0, 0x03, 0x80, 0x01, 0x05])
    ensures Parse([0xA0, 0x03, 0x80, 0x01, 0x05]) ==
            [Tag([0xA0]), Length([0x03]), TLV([Tag([0x80]), Length([0x01]), Value([0x05])])]
    ensures Recompose(Parse([0xA0, 0x03, 0x80, 0x01, 0x05])) == [0xA0, 0x03, 0x80, 0x01, 0x05]
  {
    var inner := [Tag([0x80]), Length([0x01]), Value([0x05])];
    var outer := [Tag([0xA0]), Length([0x03]), TLV(inner)];
    TagBitTests(0x80);
    TagBitTests(0xA0);
    assert inner[3..] == [] && outer[3..] == [];
    assert Framed(inner);
    assert inner == [inner[0], inner[1], inner[2]] + [];
    RecomposeTriple(inner[0], inner[1], inner[2], []);
    assert Recompose(inner) == [0x80, 0x01, 0x05];
    assert Framed(outer);
    assert outer == [outer[0], outer[1], outer[2]] + [];
    RecomposeTriple(outer[0], outer[1], outer[2], []);
    assert EntryBytes(outer[0]) == [0xA0] && EntryBytes(outer[1]) == [0x03];
    assert EntryBytes(outer[2]) == [0x80, 0x01, 0x05];
    assert Recompose([]) == [];
    assert Recompose(outer) == [0xA0] + [0x03] + [0x80, 0x01, 0x05] + [];
    assert Recompose(outer) == [0xA0, 0x03, 0x80, 0x01, 0x05];
    ParseRecompose(outer);
  }

  /** A length byte that claims more bytes than remain is accepted: the
      value is cut short and parsing stops. */
  lemma ExampleShortValue()
    ensures Parsable([0x80, 0x05, 0x01])
    ensures Parse([0x80, 0x05, 0x01]) == [Tag([0x80]), Length([0x05]), Value([0x01])]
  {
    var s: seq<byte> := [0x80, 0x05, 0x01];
    TagBitTests(0x80);
    assert TagLength(s) == Some(1);
    assert ValueAt(s, 1) == [0x01];
    assert RestAt(s, 1) == [];
    ParsableFold(s);
    ParseHead(s, [0x80], 1, 0x05, Value([0x01]));
    assert Parse([]) == [];
  }
}
