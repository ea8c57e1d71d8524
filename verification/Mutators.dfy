/** The mutators that splice and rewrite bytes in place (FuzzerMutate.cpp, FuzzerCrossOver.cpp). */
module Mutators {
  import opened Widths
  import opened Text
  import opened CounterScan
  import opened MutationModel
  import Random

  function Min(a: nat, b: nat): nat { if a < b then a else b }

  function Overwrite(before: seq<byte>, pos: nat, part: seq<byte>): (after: seq<byte>)
    requires pos + |part| <= |before|
    ensures |after| == |before|
  {
    before[..pos] + part + before[pos + |part|..]
  }

  /** The bytes of [b, e) from `from` on hold low digits of `value`, `high` is what is left of it. */
  ghost predicate Rewritten(before: seq<byte>, now: seq<byte>, b: nat, e: nat, from: nat, high: nat, value: nat) {
    && b <= from <= e <= |before| == |now|
    && now[..from] == before[..from] && now[e..] == before[e..]
    && Written(value, high, now[from..e])
  }

  lemma NoDigitYet(before: seq<byte>, b: nat, e: nat, value: nat)
    requires b <= e <= |before|
    ensures Rewritten(before, before, b, e, e, value, value)
  {
    hide Written;
    NothingWritten(value);
    assert before[e..e] == [];
  }

  lemma OneMoreDigit(before: seq<byte>, now: seq<byte>, b: nat, e: nat, idx: nat, high: nat, value: nat)
    requires b <= idx < e && Rewritten(before, now, b, e, idx + 1, high, value)
    ensures Rewritten(before, now[idx := (high % 10 + 48) as byte], b, e, idx, high / 10, value)
  {
    hide Written;
    var x := (high % 10 + 48) as byte;
    DigitMoves(value, high, now[idx + 1..e]);
    assert now[idx := x][idx..e] == [x] + now[idx + 1..e];
    assert now[idx := x][..idx] == now[..idx + 1][..idx] == before[..idx];
  }

  lemma AllRewritten(before: seq<byte>, now: seq<byte>, b: nat, e: nat, high: nat, value: nat)
    requires Rewritten(before, now, b, e, b, high, value)
    ensures now[..b] == before[..b] && now[e..] == before[e..] && LowDigitsOf(value, now[b..e])
  {
    hide Written, LowDigitsOf;
    AllWritten(value, high, now[b..e]);
  }

  lemma OverwriteBelow(before: seq<byte>, pos: nat, part: seq<byte>, size: nat)
    requires pos + |part| <= size <= |before|
    ensures Overwrite(before, pos, part)[..size] == Overwrite(before[..size], pos, part)
  {
  }

  /** Moving the tail out of the way and copying a part into the gap. */
  ghost function Splice(before: seq<byte>, part: seq<byte>, p: nat, size: nat): seq<byte>
    requires p <= size && size + |part| <= |before|
  {
    Overwrite(Overwrite(before, p + |part|, before[p..size]), p, part)
  }

  lemma Spliced(before: seq<byte>, part: seq<byte>, p: nat, size: nat, after: seq<byte>)
    requires p <= size && size + |part| <= |before| && after == Splice(before, part, p, size)
    ensures |after| == |before| && after[..size + |part|] == before[..size][..p] + part + before[..size][p..]
    ensures after[size + |part|..] == before[size + |part|..]
  {
    var c := |part|;
    var tail, rest := before[p..size], before[size + c..];
    var moved := Overwrite(before, p + c, tail);
    assert moved == before[..p + c] + (tail + rest);
    assert moved[..p] == before[..p] && moved[p + c..] == tail + rest;
    assert after == before[..p] + part + tail + rest;
    assert before[..size][..p] == before[..p] && before[..size][p..] == tail;
  }

  /** What a call of a mutator leaves: the buffer, a size or zero, and how many outputs of the engine are used up. */
  datatype Outcome = Outcome(bytes: seq<byte>, size: nat, drawn: nat)

  /** A mutator, called on the buffer, the size of the data in it, the maximal size, and the outputs used up before. */
  type Mutator = (seq<byte>, nat, nat, nat) -> Outcome

  ghost predicate KeepLength(mutators: seq<Mutator>) {
    forall m, s, n, max, d | m in mutators :: |m(s, n, max, d).bytes| == |s|
  }

  /** What stays the same while mutators are tried: the engine's outputs, the mutators and the sizes. */
  datatype Trial = Trial(raw: nat -> nat, mutators: seq<Mutator>, size: nat, maxSize: nat, onlyASCII: bool)

  ghost predicate ValidTrial(t: Trial) {
    t.mutators != [] && KeepLength(t.mutators) && t.maxSize > 0
  }

  /** One attempt: one output of the engine picks the mutator, which goes on from there. */
  ghost function Attempt(t: Trial, bytes: seq<byte>, drawn: nat): (r: Outcome)
    requires ValidTrial(t)
    ensures |r.bytes| == |bytes|
  {
    var m := t.mutators[Random.Below(t.raw(drawn), |t.mutators|)];
    assert m in t.mutators;
    m(bytes, t.size, t.maxSize, drawn + 1)
  }

  /** After n attempts, each on what the last one left. */
  ghost function After(t: Trial, buffer: seq<byte>, drawn: nat, n: nat): (r: Outcome)
    requires ValidTrial(t)
    ensures |r.bytes| == |buffer|
  {
    if n == 0 then Outcome(buffer, 0, drawn) else
      var o := After(t, buffer, drawn, n - 1);
      Attempt(t, o.bytes, o.drawn)
  }

  predicate Succeeded(o: Outcome, maxSize: nat) {
    0 < o.size <= maxSize
  }

  /** A success is made text if text is asked for. */
  ghost function Result(o: Outcome, maxSize: nat, onlyASCII: bool): (r: seq<byte>)
    requires maxSize <= |o.bytes|
    ensures |r| == |o.bytes|
  {
    if Succeeded(o, maxSize) && onlyASCII then AsText(o.bytes, o.size) else o.bytes
  }

  /** The n-th attempt is the first to succeed, and its result stands; or a hundred fail and a blank is left. */
  ghost predicate Ended(t: Trial, buffer: seq<byte>, drawn: nat, n: nat, after: Outcome)
    requires ValidTrial(t) && t.maxSize <= |buffer|
  {
    var last := After(t, buffer, drawn, n);
    && 0 < n <= 100 && (forall j | 0 < j < n :: !Succeeded(After(t, buffer, drawn, j), t.maxSize))
    && if Succeeded(last, t.maxSize) then after == last.(bytes := Result(last, t.maxSize, t.onlyASCII))
       else n == 100 && after == Outcome(last.bytes[0 := 32], 1, last.drawn)
  }

  /** The first n bytes made text. */
  ghost function AsText(s: seq<byte>, n: nat): seq<byte>
    requires n <= |s|
  {
    seq(|s|, i requires 0 <= i < |s| => if i < n then ToASCIIByte(s[i]) else s[i])
  }

  lemma TextOf(s: seq<byte>, n: nat, after: seq<byte>)
    requires n <= |s| == |after|
    requires forall k | 0 <= k < n :: after[k] == ToASCIIByte(s[k])
    requires forall k | n <= k < |s| :: after[k] == s[k]
    ensures after == AsText(s, n)
  {
  }

  datatype Splicing =
    | Crossed(used1: nat, used2: nat)
    | Inserted(fromBeg: nat, copySize: nat, pos: nat)
    | Copied(fromBeg: nat, toBeg: nat, copySize: nat)

  /** A part of the data, at least one byte, overwrites other data or is inserted into it. */
  ghost predicate PartCopied(before: seq<byte>, size: nat, newSize: nat, fromBeg: nat, toBeg: nat, copySize: nat,
                             after: seq<byte>)
  {
    && 0 < copySize && fromBeg + copySize <= size <= |before| == |after| && toBeg <= size <= newSize <= |after|
    && if newSize == size then
         toBeg + copySize <= size && after == Overwrite(before, toBeg, before[fromBeg..fromBeg + copySize])
       else
         && newSize == size + copySize
         && after[..newSize] == before[..size][..toBeg] + before[fromBeg..fromBeg + copySize] + before[..size][toBeg..]
  }

  lemma PartInserted(before: seq<byte>, size: nat, newSize: nat, fromBeg: nat, toBeg: nat, copySize: nat, after: seq<byte>)
    requires 0 < copySize && fromBeg + copySize <= size && toBeg <= size && newSize == size + copySize <= |before| == |after|
    requires after[..newSize] == before[..size][..toBeg] + before[fromBeg..fromBeg + copySize] + before[..size][toBeg..]
    ensures PartCopied(before, size, newSize, fromBeg, toBeg, copySize, after)
  {
  }

  lemma PartOverwritten(before: seq<byte>, size: nat, fromBeg: nat, toBeg: nat, copySize: nat, after: seq<byte>)
    requires 0 < copySize && fromBeg + copySize <= size <= |before| && toBeg + copySize <= size
    requires after == Overwrite(before, toBeg, before[fromBeg..fromBeg + copySize])
    ensures PartCopied(before, size, size, fromBeg, toBeg, copySize, after)
  {
  }

  /** The part copied is where the draws say: its target first, then its size and its source. */
  ghost predicate OverwriteDrawn(raw: nat -> nat, d: nat, fromSize: nat, toSize: nat, fromBeg: nat, toBeg: nat, copySize: nat) {
    && toBeg == Random.Below(raw(d), toSize) <= toSize
    && copySize == Min(Random.Below(raw(d + 1), toSize - toBeg) + 1, fromSize)
    && copySize <= fromSize && fromBeg == Random.Below(raw(d + 2), fromSize - copySize + 1)
  }

  /** The part inserted is where the draws say: its size first, then its source and its place. */
  ghost predicate InsertionDrawn(raw: nat -> nat, d: nat, fromSize: nat, toSize: nat, maxToSize: nat,
                                 fromBeg: nat, copySize: nat, pos: nat)
  {
    && toSize <= maxToSize && copySize == Random.Below(raw(d), Min(maxToSize - toSize, fromSize)) + 1
    && copySize <= fromSize && fromBeg == Random.Below(raw(d + 1), fromSize - copySize + 1)
    && pos == Random.Below(raw(d + 2), toSize + 1)
  }

  /** The ways in which `data` and another unit can have been spliced together. */
  ghost predicate SplicedBy(how: Splicing, data: seq<byte>, other: seq<byte>, after: seq<byte>) {
    match how
    case Crossed(m, n) => m <= |data| && n <= |other| && Interleaves(after, data[..m], other[..n])
    case Inserted(b, c, p) => c > 0 && p <= |data| && b + c <= |other| && after == data[..p] + other[b..b + c] + data[p..]
    case Copied(b, t, c) => c > 0 && t + c <= |data| && b + c <= |other| && after == Overwrite(data, t, other[b..b + c])
  }

  class MutationDispatcher {
    const raw: nat -> nat      // the outputs of the random engine
    var drawn: nat
    var mutateInPlaceHere: seq<byte>
    var mutateWithMaskTemp: seq<byte>

    constructor (raw: nat -> nat)
    {
      this.raw := raw;
      drawn, mutateInPlaceHere, mutateWithMaskTemp := 0, [], [];
    }

    /** Any value below n, or zero. */
    method Rand(n: nat) returns (r: nat)
      modifies this`drawn
      ensures n > 0 ==> r < n
      ensures n == 0 ==> r == 0
      ensures r == Random.Below(raw(old(drawn)), n) && drawn == old(drawn) + 1
    {
      r := Random.Below(raw(drawn), n);
      drawn := drawn + 1;
    }

    /** `memmove`: the source is read before anything is written. */
    static method MemMove(to: array<byte>, toPos: nat, from: array<byte>, fromPos: nat, n: nat)
      requires toPos + n <= to.Length && fromPos + n <= from.Length
      modifies to
      ensures to[..] == Overwrite(old(to[..]), toPos, old(from[fromPos..fromPos + n]))
    {
      var source := from[fromPos..fromPos + n];
      forall i | 0 <= i < n {
        to[toPos + i] := source[i];
      }
    }

    static method MemCopy(to: array<byte>, toPos: nat, source: seq<byte>)
      requires toPos + |source| <= to.Length
      modifies to
      ensures to[..] == Overwrite(old(to[..]), toPos, source)
    {
      forall i | 0 <= i < |source| {
        to[toPos + i] := source[i];
      }
    }

    // ----- crossing over

    /** Fills `out` from both inputs in turn until it is full or both are used up. */
    method CrossOver(data1: array<byte>, size1: nat, data2: array<byte>, size2: nat, out: array<byte>, maxOutSize: nat)
      returns (outPos: nat, ghost limit: nat, ghost used1: nat, ghost used2: nat)
      requires size1 <= data1.Length && size2 <= data2.Length && 0 < maxOutSize <= out.Length
      requires size1 > 0 || size2 > 0
      requires out != data1 && out != data2
      modifies this`drawn, out
      ensures used1 <= size1 && used2 <= size2 && 0 < limit <= maxOutSize
      ensures outPos == used1 + used2 == Min(limit, size1 + size2)
      ensures Interleaves(out[..outPos], data1[..used1], data2[..used2])
      ensures out[maxOutSize..] == old(out[maxOutSize..])
    {
      hide Interleaves, Random.Below;
      var max := Rand(maxOutSize);
      max := max + 1;
      NothingYet();
      outPos := 0;
      var pos1, pos2 := 0, 0;
      var currentlyUsingFirstData := true;
      while outPos < max && (pos1 < size1 || pos2 < size2)
        invariant pos1 <= size1 && pos2 <= size2 && outPos == pos1 + pos2 <= max <= maxOutSize
        invariant Interleaves(out[..outPos], data1[..pos1], data2[..pos2])
        invariant out[maxOutSize..] == old(out[maxOutSize..])
        decreases size1 - pos1 + (size2 - pos2),
                  if (if currentlyUsingFirstData then pos1 < size1 else pos2 < size2) then 0 else 1
      {
        ghost var o, used1, used2 := out[..outPos], data1[..pos1], data2[..pos2];
        if currentlyUsingFirstData {
          if pos1 < size1 {
            var extraSize := CopyExtra(data1, size1, pos1, out, outPos, max);
            ExtendFirst(o, used1, used2, data1[pos1..pos1 + extraSize]);
            assert data1[..pos1 + extraSize] == used1 + data1[pos1..pos1 + extraSize];
            pos1, outPos := pos1 + extraSize, outPos + extraSize;
          }
        } else {
          if pos2 < size2 {
            var extraSize := CopyExtra(data2, size2, pos2, out, outPos, max);
            ExtendSecond(o, used1, used2, data2[pos2..pos2 + extraSize]);
            assert data2[..pos2 + extraSize] == used2 + data2[pos2..pos2 + extraSize];
            pos2, outPos := pos2 + extraSize, outPos + extraSize;
          }
        }
        currentlyUsingFirstData := !currentlyUsingFirstData;
      }
      limit, used1, used2 := max, pos1, pos2;
    }

    /** Appends some bytes, at least one, of one input to `out`. */
    method CopyExtra(data: array<byte>, size: nat, pos: nat, out: array<byte>, outPos: nat, max: nat) returns (extraSize: nat)
      requires pos < size <= data.Length && outPos < max <= out.Length && out != data
      modifies this`drawn, out
      ensures 0 < extraSize <= Min(max - outPos, size - pos)
      ensures extraSize == Random.Below(raw(old(drawn)), Min(max - outPos, size - pos)) + 1
      ensures out[..outPos + extraSize] == old(out[..outPos]) + data[pos..pos + extraSize]
      ensures out[max..] == old(out[max..])
    {
      var maxExtraSize := Min(max - outPos, size - pos);
      extraSize := Rand(maxExtraSize);
      extraSize := extraSize + 1;
      MemMove(out, outPos, data, pos, extraSize);
    }

    // ----- copying and inserting parts

    /** Overwrites a part of `to` by a part of `from`, which may be the same buffer. */
    method CopyPartOf(from: array<byte>, fromSize: nat, to: array<byte>, toSize: nat)
      returns (newSize: nat, ghost fromBeg: nat, ghost toBeg: nat, ghost copySize: nat)
      requires fromSize <= from.Length && 0 < toSize <= to.Length
      modifies this`drawn, to
      ensures newSize == toSize && toBeg + copySize <= toSize && fromBeg + copySize <= fromSize
      ensures fromSize > 0 ==> copySize > 0
      ensures OverwriteDrawn(raw, old(drawn), fromSize, toSize, fromBeg, toBeg, copySize)
      ensures to[..] == Overwrite(old(to[..]), toBeg, old(from[fromBeg..fromBeg + copySize]))
    {
      hide Random.Below;
      var tb := Rand(toSize);
      var c := Rand(toSize - tb);
      c := Min(c + 1, fromSize);
      var fb := Rand(fromSize - c + 1);
      MemMove(to, tb, from, fb, c);
      newSize, fromBeg, toBeg, copySize := toSize, fb, tb, c;
    }

    method InsertAliased(to: array<byte>, fb: nat, c: nat, p: nat, toSize: nat)
      requires p <= toSize && toSize + c <= to.Length && fb + c <= to.Length
      modifies this`mutateInPlaceHere, to
      ensures to[..] == Splice(old(to[..]), old(to[fb..fb + c]), p, toSize)
    {
      hide Overwrite;
      mutateInPlaceHere := to[fb..fb + c];
      MemMove(to, p + c, to, p, toSize - p);
      MemCopy(to, p, mutateInPlaceHere);
    }

    method InsertOther(from: array<byte>, to: array<byte>, fb: nat, c: nat, p: nat, toSize: nat)
      requires p <= toSize && toSize + c <= to.Length && fb + c <= from.Length && from != to
      modifies to
      ensures to[..] == Splice(old(to[..]), old(from[fb..fb + c]), p, toSize)
    {
      hide Overwrite;
      MemMove(to, p + c, to, p, toSize - p);
      MemMove(to, p, from, fb, c);
    }

    method Insert(from: array<byte>, to: array<byte>, fb: nat, c: nat, p: nat, toSize: nat)
      requires p <= toSize && toSize + c <= to.Length && fb + c <= from.Length
      modifies this`mutateInPlaceHere, to
      ensures to[..] == Splice(old(to[..]), old(from[fb..fb + c]), p, toSize)
    {
      if to == from {
        InsertAliased(to, fb, c, p, toSize);
      } else {
        InsertOther(from, to, fb, c, p, toSize);
      }
    }

    method DrawInsertion(fromSize: nat, toSize: nat, maxToSize: nat) returns (copySize: nat, fromBeg: nat, toInsertPos: nat)
      requires 0 < fromSize && toSize < maxToSize
      modifies this`drawn
      ensures 0 < copySize && fromBeg + copySize <= fromSize && toInsertPos <= toSize && toSize + copySize <= maxToSize
      ensures InsertionDrawn(raw, old(drawn), fromSize, toSize, maxToSize, fromBeg, copySize, toInsertPos)
    {
      hide Random.Below;
      var maxCopySize := Min(maxToSize - toSize, fromSize);
      copySize := Rand(maxCopySize);
      copySize := copySize + 1;
      fromBeg := Rand(fromSize - copySize + 1);
      toInsertPos := Rand(toSize + 1);
    }

    /** Inserts a part of `from` into `to`, in terms of what both held before, whether or not they are the same buffer. */
    method InsertPartOf(from: array<byte>, fromSize: nat, to: array<byte>, toSize: nat, maxToSize: nat)
      returns (newSize: nat, ghost fromBeg: nat, ghost copySize: nat, ghost toInsertPos: nat)
      requires 0 < fromSize <= from.Length && toSize <= to.Length && maxToSize <= to.Length
      modifies this`drawn, this`mutateInPlaceHere, to
      ensures toSize >= maxToSize ==> newSize == 0 && to[..] == old(to[..])
      ensures toSize < maxToSize ==>
                && newSize == toSize + copySize <= maxToSize && copySize > 0
                && toInsertPos <= toSize && fromBeg + copySize <= fromSize
                && to[..newSize] == old(to[..toSize])[..toInsertPos] + old(from[..])[fromBeg..fromBeg + copySize]
                                    + old(to[..toSize])[toInsertPos..]
                && to[newSize..] == old(to[..])[newSize..]
    {
      hide InsertionDrawn;
      if toSize >= maxToSize {
        newSize, fromBeg, copySize, toInsertPos := 0, 0, 0, 0;
        return;
      }
      var c, fb, p := DrawInsertion(fromSize, toSize, maxToSize);
      ghost var before := to[..];
      ghost var part := from[fb..fb + c];
      hide Splice;
      Insert(from, to, fb, c, p, toSize);
      Spliced(before, part, p, toSize, to[..]);
      newSize, fromBeg, copySize, toInsertPos := toSize + c, fb, c, p;
    }

    // ----- integers in text

    method FindDigits(data: array<byte>, size: nat, start: nat) returns (b: nat, e: nat)
      requires start <= size <= data.Length
      ensures start <= b <= e <= size && (forall i | start <= i < b :: !IsDigitByte(data[i]))
      ensures b == e ==> b == size
      ensures AreDigits(data[b..e]) && (e < size ==> !IsDigitByte(data[e]))
    {
      b := start;
      while b < size && !IsDigitByte(data[b])
        invariant start <= b <= size && forall i | start <= i < b :: !IsDigitByte(data[i])
      {
        b := b + 1;
      }
      e := b;
      while e < size && IsDigitByte(data[e])
        invariant b <= e <= size && forall i | b <= i < e :: IsDigitByte(data[i])
      {
        e := e + 1;
      }
    }

    method ParseDigits(data: array<byte>, b: nat, e: nat) returns (val: nat)
      requires b < e <= data.Length && AreDigits(data[b..e])
      ensures val == NumberIn(data[b..e]) % U64
    {
      ghost var digits := data[b..e];
      assert data[b] == digits[0];
      val := data[b] as int - 48;
      NextDigit([], data[b]);
      assert digits[..1] == [] + [data[b]];
      hide NumberIn;
      for i := b + 1 to e
        invariant val == NumberIn(digits[..i - b]) % U64
      {
        ghost var before, x := digits[..i - b], digits[i - b];
        assert x == data[i] && AreDigits(before);
        NextDigit(before, x);
        assert before + [x] == digits[..i - b + 1];
        val := (val * 10 + data[i] as int - 48) % U64;
      }
      assert digits[..e - b] == digits;
    }

    method ChangeValue(val: nat) returns (changed: nat)
      requires val < U64
      modifies this`drawn
      ensures MutationOf(changed, val)
    {
      var which := Rand(5);
      match which
      case 0 => changed := (val + 1) % U64;
      case 1 => changed := (val - 1) % U64;
      case 2 => changed := val / 2;
      case 3 => changed := val * 2 % U64;
      case _ => changed := Rand(val * val % U64);
    }

    /** Writes the last digits of a value over [b, e), from the right. */
    method WriteDigits(data: array<byte>, b: nat, e: nat, value: nat)
      requires b < e <= data.Length
      modifies data
      ensures data[..b] == old(data[..b]) && data[e..] == old(data[e..])
      ensures LowDigitsOf(value, data[b..e])
    {
      hide Rewritten, LowDigitsOf;
      var val: nat := value;
      ghost var before := data[..];
      NoDigitYet(before, b, e, value);
      for i := b to e
        invariant Rewritten(before, data[..], b, e, e + b - i, val, value)
      {
        var idx := e + b - i - 1;
        ghost var now := data[..];
        data[idx] := (val % 10 + 48) as byte;
        OneMoreDigit(before, now, b, e, idx, val, value);
        val := val / 10;
      }
      AllRewritten(before, data[..], b, e, val, value);
    }

    /** Replaces one number in the text by another one of as many digits. */
    method Mutate_ChangeASCIIInteger(data: array<byte>, size: nat, maxSize: nat)
      returns (newSize: nat, ghost start: nat, ghost b: nat, ghost e: nat, ghost value: nat)
      requires size <= data.Length
      modifies this`drawn, data
      ensures start <= b <= e <= size && (size > 0 ==> start < size)
      ensures newSize == if size <= maxSize && b < e then size else 0
      ensures newSize == 0 ==> data[..] == old(data[..])
      ensures size <= maxSize ==> (forall i | start <= i < b :: !IsDigitByte(old(data[i]))) && (b == e ==> b == size)
      ensures newSize != 0 ==>
                && AreDigits(old(data[b..e])) && (e < size ==> !IsDigitByte(old(data[e])))
                && data[..b] == old(data[..b]) && data[e..] == old(data[e..])
                && LowDigitsOf(value, data[b..e])
                && MutationOf(value, NumberIn(old(data[b..e])) % U64)
    {
      newSize, start, b, e, value := 0, 0, 0, 0, 0;
      if size > maxSize {
        return;
      }
      var from := Rand(size);
      var b0, e0 := FindDigits(data, size, from);
      start, b, e := from, b0, e0;
      if b0 == size {
        return;
      }
      var val := ParseDigits(data, b0, e0);
      val := ChangeValue(val);
      WriteDigits(data, b0, e0, val);
      value := val;
      newSize := size;
    }

    // ----- calling a mutator

    /** Leaves text as it is and makes everything else text. */
    static method ToASCII(data: array<byte>, size: nat) returns (changed: bool)
      requires size <= data.Length
      modifies data
      ensures forall i | 0 <= i < size ::
                var low := old(data[i]) % 128;
                data[i] == (if IsText(low) then low else 32) && IsText(data[i])
      ensures data[size..] == old(data[size..])
      ensures changed <==> data[..] != old(data[..])
    {
      changed := false;
      for i := 0 to size
        invariant forall k | 0 <= k < i :: data[k] == ToASCIIByte(old(data[k]))
        invariant forall k | i <= k < data.Length :: data[k] == old(data[k])
        invariant changed <==> exists k | 0 <= k < i :: data[k] != old(data[k])
      {
        var newX := ToASCIIByte(data[i]);
        changed := changed || newX != data[i];
        data[i] := newX;
      }
    }

    /** `mutators` are arbitrary: what they leave, and how many draws they take, may depend on all they are given. */
    method MutateImpl(data: array<byte>, size: nat, maxSize: nat,
                      mutators: seq<Mutator>, onlyASCII: bool) returns (newSize: nat, ghost attempts: nat)
      requires size <= maxSize <= data.Length && maxSize > 0 && mutators != [] && KeepLength(mutators)
      modifies this`drawn, data
      ensures 0 < newSize <= maxSize
      ensures Ended(Trial(raw, mutators, size, maxSize, onlyASCII), old(data[..]), old(drawn), attempts,
                    Outcome(data[..], newSize, drawn))
      ensures onlyASCII ==> forall i | 0 <= i < newSize :: IsText(data[i])
    {
      hide KeepLength, Attempt, AsText;
      ghost var t, buffer, drawn0 := Trial(raw, mutators, size, maxSize, onlyASCII), data[..], drawn;
      for iter := 0 to 100
        invariant data[..] == After(t, buffer, drawn0, iter).bytes && drawn == After(t, buffer, drawn0, iter).drawn
        invariant forall j | 0 < j <= iter :: !Succeeded(After(t, buffer, drawn0, j), maxSize)
      {
        var n := TryMutator(data, size, maxSize, mutators, onlyASCII);
        if n != 0 && n <= maxSize {
          return n, iter + 1;
        }
      }
      data[0] := 32;
      return 1, 100;
    }

    /** One attempt with a mutator drawn at random. */
    method TryMutator(data: array<byte>, size: nat, maxSize: nat,
                      mutators: seq<Mutator>, onlyASCII: bool) returns (n: nat)
      requires 0 < maxSize <= data.Length && mutators != [] && KeepLength(mutators)
      modifies this`drawn, data
      ensures var o := Attempt(Trial(raw, mutators, size, maxSize, onlyASCII), old(data[..]), old(drawn));
              n == o.size && drawn == o.drawn && data[..] == Result(o, maxSize, onlyASCII)
      ensures onlyASCII && 0 < n <= maxSize ==> forall i | 0 <= i < n :: IsText(data[i])
    {
      hide AsText;
      var k := Rand(|mutators|);
      assert mutators[k] in mutators;
      var o := mutators[k](data[..], size, maxSize, drawn);
      n, drawn := o.size, o.drawn;
      MemCopy(data, 0, o.bytes);
      if 0 < n <= maxSize && onlyASCII {
        assert data[..] == o.bytes;
        var _ := ToASCII(data, n);
        TextOf(o.bytes, n, data[..]);
      }
    }

    /** Mutates the bytes that the mask marks, and no others: copies them to a temporary buffer `temp`, lets the mutators
        leave `left` there, and copies that back. */
    method MutateWithMask(data: array<byte>, size: nat, maxSize: nat, mask: seq<byte>,
                          mutators: seq<Mutator>, onlyASCII: bool)
      returns (newSize: nat, ghost temp: seq<byte>, ghost attempts: nat, ghost tempSize: nat, ghost left: seq<byte>)
      requires size <= data.Length && mutators != [] && KeepLength(mutators)
      modifies this`drawn, this`mutateWithMaskTemp, data
      ensures var n := Min(size, |mask|);
              var ones := MarkedCount(mask, n);
              && newSize == (if ones == 0 then 0 else size)
              && (ones == 0 ==> data[..] == old(data[..]))
              && (ones > 0 ==>
                    && ones <= |temp| == |left| && temp[..ones] == Marked(old(data[..]), mask, n)
                    && Ended(Trial(raw, mutators, ones, ones, onlyASCII), temp, old(drawn), attempts,
                             Outcome(left, tempSize, drawn))
                    && Remasked(old(data[..]), data[..], mask, n, left[..ones]))
    {
      hide Ended, Marked, Remasked, MarkedCount, KeepLength;
      var maskedSize := Min(size, |mask|);
      var t := new byte[if |mutateWithMaskTemp| < size then size else |mutateWithMaskTemp|](i => 0);
      MemCopy(t, 0, mutateWithMaskTemp);
      var oneBits := CopyMarked(data, maskedSize, mask, t);
      mutateWithMaskTemp := t[..];
      newSize, temp, attempts, tempSize, left := 0, t[..], 0, 0, t[..];
      if oneBits == 0 {
        return;
      }
      var n;
      n, attempts := MutateImpl(t, oneBits, oneBits, mutators, onlyASCII);
      mutateWithMaskTemp := t[..];
      tempSize, left := n, t[..];
      CopyBack(data, maskedSize, mask, t, oneBits);
      newSize := size;
    }

    method CopyMarked(data: array<byte>, n: nat, mask: seq<byte>, t: array<byte>) returns (oneBits: nat)
      requires n <= data.Length && n <= |mask| && n <= t.Length && t != data
      modifies t
      ensures oneBits == MarkedCount(mask, n) <= n && t[..oneBits] == Marked(data[..], mask, n)
    {
      oneBits := 0;
      for i := 0 to n
        invariant oneBits == MarkedCount(mask, i) <= i && t[..oneBits] == Marked(data[..], mask, i)
      {
        if mask[i] != 0 {
          t[oneBits] := data[i];
          oneBits := oneBits + 1;
        }
      }
    }

    method CopyBack(data: array<byte>, n: nat, mask: seq<byte>, t: array<byte>, oneBits: nat)
      requires n <= data.Length && n <= |mask| && oneBits == MarkedCount(mask, n) && oneBits <= t.Length && t != data
      modifies data
      ensures Remasked(old(data[..]), data[..], mask, n, t[..oneBits])
    {
      var j := 0;
      for i := 0 to n
        invariant j == MarkedCount(mask, i) && j <= oneBits
        invariant Remasked(old(data[..]), data[..], mask, i, t[..j])
      {
        MarkedCountGrows(mask, i + 1, n);
        ghost var before := data[..];
        if mask[i] != 0 {
          data[i] := t[j];
          j := j + 1;
        }
        MarkedSame(before, data[..], mask, i);
      }
    }

    // ----- the mutators that splice

    method Mutate_CopyPart(data: array<byte>, size: nat, maxSize: nat)
      returns (newSize: nat, ghost fromBeg: nat, ghost toBeg: nat, ghost copySize: nat)
      requires size <= data.Length && maxSize <= data.Length
      modifies this`drawn, this`mutateInPlaceHere, data
      ensures newSize <= maxSize && (newSize == 0 <==> size > maxSize || size == 0)
      ensures newSize == 0 ==> data[..] == old(data[..])
      ensures newSize != 0 ==> PartCopied(old(data[..]), size, newSize, fromBeg, toBeg, copySize, data[..])
    {
      newSize, fromBeg, toBeg, copySize := 0, 0, 0, 0;
      if size > maxSize || size == 0 {
        return;
      }
      hide OverwriteDrawn, Overwrite, Random.Below, PartCopied;
      ghost var before := data[..];
      if size != maxSize {
        var coin := Rand(2);
        if coin != 1 {
          newSize, fromBeg, copySize, toBeg := InsertPartOf(data, size, data, size, maxSize);
          PartInserted(before, size, newSize, fromBeg, toBeg, copySize, data[..]);
          return;
        }
      }
      newSize, fromBeg, toBeg, copySize := CopyPartOf(data, size, data, size);
      PartOverwritten(before, size, fromBeg, toBeg, copySize, data[..]);
    }

    /** Crosses the data with another unit: the result is neither empty nor oversized. */
    method Mutate_CrossOver(data: array<byte>, size: nat, maxSize: nat, crossOverWith: array<byte>)
      returns (newSize: nat, ghost how: Splicing)
      requires size <= data.Length && maxSize <= data.Length && crossOverWith != data
      modifies this`drawn, this`mutateInPlaceHere, data
      ensures newSize <= maxSize && (newSize == 0 <==> size > maxSize || size == 0 || crossOverWith.Length == 0)
      ensures newSize == 0 ==> data[..] == old(data[..])
      ensures newSize > 0 ==> SplicedBy(how, old(data[..size]), old(crossOverWith[..]), data[..newSize])
    {
      newSize, how := 0, Crossed(0, 0);
      if size > maxSize || size == 0 || crossOverWith.Length == 0 {
        return;
      }
      hide Interleaves;
      ghost var a, b, c;
      var which := Rand(3);
      match which
      case 0 =>
        newSize, how := CrossInto(data, size, maxSize, crossOverWith);
      case 1 =>
        newSize, a, b, c := InsertPartOf(crossOverWith, crossOverWith.Length, data, size, maxSize);
        how := Inserted(a, b, c);
        if newSize == 0 {
          newSize, how := CopyInto(data, size, crossOverWith);
        }
      case _ =>
        newSize, how := CopyInto(data, size, crossOverWith);
    }

    method CrossInto(data: array<byte>, size: nat, maxSize: nat, other: array<byte>)
      returns (newSize: nat, ghost how: Splicing)
      requires 0 < size <= maxSize <= data.Length && other != data
      modifies this`drawn, this`mutateInPlaceHere, data
      ensures 0 < newSize <= maxSize && SplicedBy(how, old(data[..size]), other[..], data[..newSize])
    {
      hide Interleaves;
      var buffer := new byte[maxSize](i => 0);
      ghost var limit, used1, used2;
      newSize, limit, used1, used2 := CrossOver(data, size, other, other.Length, buffer, maxSize);
      mutateInPlaceHere := buffer[..];
      ghost var before := data[..size];
      assert data[..used1] == before[..used1] && other[..used2] == other[..][..used2];
      assert buffer[..newSize] == mutateInPlaceHere[..newSize];
      MemCopy(data, 0, mutateInPlaceHere[..newSize]);
      assert data[..newSize] == buffer[..newSize];
      assert Interleaves(data[..newSize], before[..used1], other[..][..used2]);
      how := Crossed(used1, used2);
    }

    method CopyInto(data: array<byte>, size: nat, other: array<byte>) returns (newSize: nat, ghost how: Splicing)
      requires 0 < size <= data.Length && other != data && other.Length > 0
      modifies this`drawn, data
      ensures newSize == size && SplicedBy(how, old(data[..size]), other[..], data[..newSize])
    {
      hide OverwriteDrawn;
      ghost var a, b, c;
      ghost var before := data[..];
      newSize, a, b, c := CopyPartOf(other, other.Length, data, size);
      OverwriteBelow(before, b, other[a..a + c], size);
      how := Copied(a, b, c);
    }
  }
}
