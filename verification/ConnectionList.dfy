/** The connection list of a widget (section 7.3.3.3 of the Intel High Definition Audio
    Specification): words that hold single node ids and ends of ranges, unpacked into at most 32
    inputs. */
module ConnectionList {
  import opened Common

  const MAX_INPUTS := 32

  /** One entry of the list: a node id, or the end of a range that began at the entry before. */
  datatype Entry = Single(id: nat) | RangeEnd(id: nat)

  /** The width of an entry. The source takes the long form from four bits of the length response,
      where the specification has one, so short lists of 16 entries and more are read as long. */
  function ValuesPerEntry(lengthResponse: U32): nat {
    if lengthResponse / 0x10 % 0x10 != 0 then 2 else 4
  }

  /** The form as the specification encodes it, in bit 7. */
  function SpecifiedValuesPerEntry(lengthResponse: U32): nat {
    if lengthResponse / 0x80 % 2 == 1 then 2 else 4
  }

  /** The two agree exactly when the long form is announced or the list has fewer than 16 entries. */
  lemma FormAgreesIff(lengthResponse: U32)
    ensures ValuesPerEntry(lengthResponse) == SpecifiedValuesPerEntry(lengthResponse)
            <==> lengthResponse / 0x80 % 2 == 1 || ListEntries(lengthResponse) < 16
  {
    var high, low := lengthResponse / 0x100, lengthResponse % 0x100;
    assert lengthResponse == 0x100 * high + low;
    assert lengthResponse / 0x80 == 2 * high + low / 0x80;
    assert lengthResponse / 0x10 == 0x10 * high + low / 0x10;
    LowByte(high, low);
  }

  lemma LowByte(high: nat, low: nat)
    requires low < 0x100
    ensures (2 * high + low / 0x80) % 2 == low / 0x80
    ensures (0x10 * high + low / 0x10) % 0x10 == low / 0x10
    ensures (0x100 * high + low) % 0x80 == low % 0x80
    ensures low / 0x10 == 0 <==> low / 0x80 == 0 && low % 0x80 < 16
  {
    DivModUnique(2 * high + low / 0x80, 2, high, low / 0x80);
    DivModUnique(0x10 * high + low / 0x10, 0x10, high, low / 0x10);
    DivModUnique(0x100 * high + low, 0x80, 2 * high + low / 0x80, low % 0x80);
  }

  function ListEntries(lengthResponse: U32): nat {
    lengthResponse % 0x80
  }

  /** The three parts of a length response, read back: bit 7 is the long form, the bits below it the
      number of entries. The source also takes lists of 16 entries and more for long ones. */
  lemma LengthParts(high: nat, long: bool, entries: nat)
    requires high < 0x100_0000 && entries < 0x80
    ensures var response := 0x100 * high + (if long then 0x80 else 0) + entries;
            && response < 0x1_0000_0000
            && ListEntries(response) == entries
            && SpecifiedValuesPerEntry(response) == (if long then 2 else 4)
            && ValuesPerEntry(response) == if long || entries >= 16 then 2 else 4
  {
    var low := (if long then 0x80 else 0) + entries;
    var response := 0x100 * high + low;
    assert response / 0x80 == 2 * high + low / 0x80;
    assert response / 0x10 == 0x10 * high + low / 0x10;
    LowByte(high, low);
  }

  /** Field k of a word with v fields; the top bit of a field marks the end of a range. */
  function EntryOf(word: U32, v: nat, k: nat): Entry
    requires (v == 2 || v == 4) && k < v
  {
    var width := if v == 2 then 0x1_0000 else 0x100;
    var field := word / Power(width, k) % width;
    if field / (width / 2) == 1 then RangeEnd(field % (width / 2)) else Single(field)
  }

  function Power(base: nat, k: nat): (r: nat)
    requires base > 0
    ensures r > 0
  {
    if k == 0 then 1 else base * Power(base, k - 1)
  }

  function Field(f: nat, flag: nat): Entry {
    if f < flag then Single(f) else RangeEnd(f - flag)
  }

  /** The four bytes of a word, the low one first. */
  lemma ShortFields(a: nat, b: nat, c: nat, d: nat)
    requires a < 0x100 && b < 0x100 && c < 0x100 && d < 0x100
    ensures var word := a + 0x100 * b + 0x1_0000 * c + 0x100_0000 * d;
            && EntryOf(word, 4, 0) == Field(a, 0x80) && EntryOf(word, 4, 1) == Field(b, 0x80)
            && EntryOf(word, 4, 2) == Field(c, 0x80) && EntryOf(word, 4, 3) == Field(d, 0x80)
  {
    var word := a + 0x100 * b + 0x1_0000 * c + 0x100_0000 * d;
    assert Power(0x100, 1) == 0x100 && Power(0x100, 2) == 0x1_0000 && Power(0x100, 3) == 0x100_0000 by {
      assert Power(0x100, 0) == 1;
    }
    DivModUnique(word, 0x100, b + 0x100 * c + 0x1_0000 * d, a);
    DivModUnique(word, 0x1_0000, c + 0x100 * d, a + 0x100 * b);
    DivModUnique(word, 0x100_0000, d, a + 0x100 * b + 0x1_0000 * c);
    DivModUnique(b + 0x100 * c + 0x1_0000 * d, 0x100, c + 0x100 * d, b);
    DivModUnique(c + 0x100 * d, 0x100, d, c);
  }

  /** The two halves of a word, the low one first. */
  lemma LongFields(a: nat, b: nat)
    requires a < 0x1_0000 && b < 0x1_0000
    ensures var word := a + 0x1_0000 * b;
            EntryOf(word, 2, 0) == Field(a, 0x8000) && EntryOf(word, 2, 1) == Field(b, 0x8000)
  {
    var word := a + 0x1_0000 * b;
    assert Power(0x1_0000, 1) == 0x1_0000 by {
      assert Power(0x1_0000, 0) == 1;
    }
    DivModUnique(word, 0x1_0000, b, a);
  }

  /** How many words the codec delivers before the first failure. */
  function Delivered(words: seq<Option<U32>>): (r: nat)
    ensures r <= |words| && (forall k :: 0 <= k < r ==> words[k].Some?) && (r < |words| ==> words[r] == None)
  {
    if words == [] || words[0] == None then 0 else 1 + Delivered(words[1..])
  }

  /** The word that holds entry i, with v entries to a word. */
  function WordOf(v: nat, i: nat): (r: nat)
    requires v == 2 || v == 4
    ensures v * r <= i < v * r + v
  {
    if v == 2 then i / 2 else i / 4
  }

  /** The entries of the list, as far as the words are delivered. */
  function Entries(words: seq<Option<U32>>, v: nat, count: nat): (r: seq<Entry>)
    requires v == 2 || v == 4
    ensures |r| <= count
  {
    var n := if count < v * Delivered(words) then count else v * Delivered(words);
    seq(n, i requires 0 <= i < n => EntryOf(words[WordOf(v, i)].value, v, i - v * WordOf(v, i)))
  }

  /** Where the entries are: the words in order, the fields of each in order, up to the first word that
      is not delivered. */
  lemma EntriesInOrder(words: seq<Option<U32>>, v: nat, count: nat, w: nat, k: nat)
    requires (v == 2 || v == 4) && w < |words| && k < v && v * w + k < count
    requires forall j :: 0 <= j < w ==> words[j].Some?
    ensures words[w] == None ==> |Entries(words, v, count)| == v * w
    ensures words[w].Some? ==> v * w + k < |Entries(words, v, count)|
                               && Entries(words, v, count)[v * w + k] == EntryOf(words[w].value, v, k)
  {
    hide EntryOf;
    if v == 2 {
      assert WordOf(v, 2 * w + k) == w;
    } else {
      assert WordOf(v, 4 * w + k) == w;
    }
  }

  /** The ids from lo + 1 to hi. */
  function Range(lo: int, hi: int): (r: seq<int>)
    ensures |r| == if lo < hi then hi - lo else 0
    ensures forall i :: 0 <= i < |r| ==> r[i] == lo + 1 + i
    decreases hi - lo
  {
    if lo < hi then [lo + 1] + Range(lo + 1, hi) else []
  }

  /** What the list means: single ids stand for themselves, a range end adds the ids after the entry
      before it, and a range without a beginning, or downwards, adds nothing. */
  function Expand(entries: seq<Entry>, previous: int): seq<int> {
    if entries == [] then []
    else match entries[0]
      case Single(id) => [id] + Expand(entries[1..], id)
      case RangeEnd(id) =>
        if id < previous || previous == -1 then Expand(entries[1..], previous)
        else Range(previous, id) + Expand(entries[1..], -1)
  }

  /** How many of the ids from the first on follow each other. */
  function RunLength(ids: seq<nat>): (n: nat)
    requires ids != []
    ensures 1 <= n <= |ids| && forall k :: 0 <= k < n ==> ids[k] == ids[0] + k
  {
    if |ids| > 1 && ids[1] == ids[0] + 1 then 1 + RunLength(ids[1..]) else 1
  }

  /** A list of ids as the specification encodes it, with ranges for ids that follow each other. */
  function Encode(ids: seq<nat>): seq<Entry>
    decreases |ids|
  {
    if ids == [] then []
    else
      var n := RunLength(ids);
      (if n == 1 then [Single(ids[0])] else [Single(ids[0]), RangeEnd(ids[0] + n - 1)]) + Encode(ids[n..])
  }

  /** Every list of ids is read back from its encoding. */
  lemma {:induction false} EncodedReadsBack(ids: seq<nat>, previous: int)
    ensures Expand(Encode(ids), previous) == ids
    decreases |ids|
  {
    hide Expand;
    if ids == [] {
      ExpandNone(previous);
    } else {
      var n := RunLength(ids);
      var rest := Encode(ids[n..]);
      EncodedReadsBack(ids[n..], ids[0]);
      EncodedReadsBack(ids[n..], -1);
      ExpandSingle(ids[0], rest, previous);
      ExpandRange(ids[0], ids[0] + n - 1, rest, previous);
      RunAndRest(ids, n);
    }
  }

  lemma ExpandNone(previous: int)
    ensures Expand([], previous) == []
  {
  }

  lemma RunAndRest(ids: seq<nat>, n: nat)
    requires 1 <= n <= |ids| && forall k :: 0 <= k < n ==> ids[k] == ids[0] + k
    ensures ids == [ids[0]] + Range(ids[0], ids[0] + n - 1) + ids[n..]
    ensures n == 1 ==> ids == [ids[0]] + ids[1..]
  {
  }

  lemma ExpandSingle(id: nat, rest: seq<Entry>, previous: int)
    ensures Expand([Single(id)] + rest, previous) == [id] + Expand(rest, id)
  {
    assert ([Single(id)] + rest)[1..] == rest;
  }

  /** A range, upwards or not. */
  lemma ExpandRange(from: nat, to: nat, rest: seq<Entry>, previous: int)
    ensures Expand([Single(from), RangeEnd(to)] + rest, previous)
            == if from <= to then [from] + Range(from, to) + Expand(rest, -1) else [from] + Expand(rest, from)
  {
    assert [Single(from), RangeEnd(to)] + rest == [Single(from)] + ([RangeEnd(to)] + rest);
    ExpandSingle(from, [RangeEnd(to)] + rest, previous);
    assert ([RangeEnd(to)] + rest)[1..] == rest;
  }

  lemma ExpandStray(stray: nat, rest: seq<Entry>)
    ensures Expand([RangeEnd(stray)] + rest, -1) == Expand(rest, -1)
  {
    assert ([RangeEnd(stray)] + rest)[1..] == rest;
  }

  /** The end of a range adds nothing at the beginning, after the end of another range, or below the
      id before it. */
  lemma StrayRangeEnds(from: nat, to: nat, stray: nat, rest: seq<Entry>)
    ensures Expand([RangeEnd(stray)] + rest, -1) == Expand(rest, -1)
    ensures from <= to ==> Expand([Single(from), RangeEnd(to), RangeEnd(stray)] + rest, -1)
                           == Expand([Single(from), RangeEnd(to)] + rest, -1)
    ensures stray < from ==> Expand([Single(from), RangeEnd(stray)] + rest, -1) == Expand([Single(from)] + rest, -1)
  {
    hide Expand;
    var last := [RangeEnd(stray)] + rest;
    ExpandStray(stray, rest);
    ExpandRange(from, to, last, -1);
    ExpandRange(from, to, rest, -1);
    ExpandRange(from, stray, rest, -1);
    ExpandSingle(from, rest, -1);
    assert [Single(from), RangeEnd(to), RangeEnd(stray)] + rest == [Single(from), RangeEnd(to)] + last;
  }

  function First32(s: seq<int>): seq<int> {
    if |s| <= 32 then s else s[..32]
  }

  lemma FullStaysFull(inputs: seq<int>, a: seq<int>, b: seq<int>)
    requires |inputs| == MAX_INPUTS
    ensures First32(inputs + a) == inputs == First32(inputs + b)
  {
  }

  /** Cutting early does not change the first 32. */
  lemma CutRange(inputs: seq<int>, range: seq<int>, rest: seq<int>)
    requires |inputs| <= MAX_INPUTS
    ensures First32(First32(inputs + range) + rest) == First32(inputs + (range + rest))
  {
  }

  /** Unpacks the list into the inputs of a widget. The codec's answers are parameters; None stands
      for a command that failed. The result is the first 32 ids of what the list means. */
  method GetConnections(inputs: array<int>, oldCount: nat, oldActive: int, lengthResponse: Option<U32>,
                        selectResponse: Option<U32>, words: seq<Option<U32>>)
    returns (ok: bool, count: nat, active: int)
    requires inputs.Length == MAX_INPUTS && oldCount <= MAX_INPUTS
    requires lengthResponse.Some? ==>
               ListEntries(lengthResponse.value) <= ValuesPerEntry(lengthResponse.value) * |words|
    modifies inputs
    ensures ok <==> lengthResponse.Some?
    ensures !ok || ListEntries(lengthResponse.value) == 0 ==>
              count == oldCount && active == oldActive && inputs[..] == old(inputs[..])
    ensures ok && ListEntries(lengthResponse.value) > 0 ==>
              var list := Entries(words, ValuesPerEntry(lengthResponse.value), ListEntries(lengthResponse.value));
              count <= MAX_INPUTS && inputs[..count] == First32(Expand(list, -1))
    ensures ok && ListEntries(lengthResponse.value) > 0 ==>
              active == if count == 1 then 0
                        else if oldCount > 1 && selectResponse.Some? then selectResponse.value % 0x100
                        else oldActive
    ensures oldCount == 0 && oldActive == -1 ==> active == if count == 1 then 0 else -1
  {
    ok, count, active := true, oldCount, oldActive;
    if lengthResponse == None {
      return false, count, active;
    }
    var listEntries := ListEntries(lengthResponse.value);
    if listEntries == 0 {
      return;
    }
    if oldCount > 1 && selectResponse.Some? {
      active := selectResponse.value % 0x100;
    }
    var v := ValuesPerEntry(lengthResponse.value);
    count := ParseEntries(inputs, v, listEntries, words);
    if count == 1 {
      active := 0;
    }
  }

  method ParseEntries(inputs: array<int>, v: nat, listEntries: nat, words: seq<Option<U32>>)
    returns (count: nat)
    requires inputs.Length == MAX_INPUTS && (v == 2 || v == 4) && listEntries <= v * |words|
    modifies inputs
    ensures count <= MAX_INPUTS && inputs[..count] == First32(Expand(Entries(words, v, listEntries), -1))
  {
    hide Entries, Expand, EntryOf;
    ghost var list := Entries(words, v, listEntries);
    assert list[0..] == list;
    var previous := -1;
    count := 0;
    var i := 0;
    while i < listEntries
      invariant 0 <= i <= |list| <= listEntries && count <= MAX_INPUTS && -1 <= previous
      invariant First32(inputs[..count] + Expand(list[i..], previous)) == First32(Expand(list, -1))
    {
      var entry := FetchEntry(words, v, listEntries, i);
      if entry == None {
        break;
      }
      assert list[i..] == [entry.value] + list[i + 1..];
      count, previous := AddEntry(inputs, count, previous, entry.value, list[i + 1..]);
      i := i + 1;
    }
    assert i == |list|;
    assert list[i..] == [];
    NothingAdded(inputs[..count], previous);
  }

  lemma NothingAdded(inputs: seq<int>, previous: int)
    requires |inputs| <= MAX_INPUTS
    ensures First32(inputs + Expand([], previous)) == inputs
  {
    assert inputs + [] == inputs;
  }

  /** Entry i, or None when the word it is in was not delivered. */
  method FetchEntry(words: seq<Option<U32>>, v: nat, count: nat, i: nat) returns (e: Option<Entry>)
    requires (v == 2 || v == 4) && i < count <= v * |words| && i <= |Entries(words, v, count)|
    ensures e == None ==> i == |Entries(words, v, count)|
    ensures e.Some? ==> i < |Entries(words, v, count)| && e.value == Entries(words, v, count)[i]
  {
    EntryIsListed(words, v, count, i);
    var word := words[WordOf(v, i)];
    if word == None {
      return None;
    }
    return Some(EntryOf(word.value, v, i - v * WordOf(v, i)));
  }

  lemma EntryIsListed(words: seq<Option<U32>>, v: nat, count: nat, i: nat)
    requires (v == 2 || v == 4) && i < count <= v * |words| && i <= |Entries(words, v, count)|
    ensures words[WordOf(v, i)].Some? ==>
              && i < |Entries(words, v, count)|
              && Entries(words, v, count)[i] == EntryOf(words[WordOf(v, i)].value, v, i - v * WordOf(v, i))
    ensures words[WordOf(v, i)] == None ==> i == |Entries(words, v, count)|
  {
    hide EntryOf, Delivered, WordOf;
    var w, d := WordOf(v, i), Delivered(words);
    if v == 2 {
      assert w < d <==> i < 2 * d;
    } else {
      assert w < d <==> i < 4 * d;
    }
  }

  /** The effect of one entry; rest is the list behind it. */
  method AddEntry(inputs: array<int>, before: nat, previousBefore: int, entry: Entry, ghost rest: seq<Entry>)
    returns (count: nat, previous: int)
    requires inputs.Length == MAX_INPUTS && before <= MAX_INPUTS && -1 <= previousBefore
    modifies inputs
    ensures count <= MAX_INPUTS && -1 <= previous
    ensures First32(inputs[..count] + Expand(rest, previous))
            == First32(old(inputs[..before]) + Expand([entry] + rest, previousBefore))
  {
    count, previous := before, previousBefore;
    assert ([entry] + rest)[1..] == rest;
    match entry {
      case RangeEnd(id) =>
        if id < previous || previous == -1 {
          return;
        }
        CutRange(inputs[..before], Range(previous, id), Expand(rest, -1));
        count := AddRange(inputs, before, previous, id);
        previous := -1;
      case Single(id) =>
        if count < MAX_INPUTS {
          inputs[count] := id;
          count := count + 1;
          previous := id;
          assert old(inputs[..before]) + ([id] + Expand(rest, id)) == inputs[..count] + Expand(rest, id);
        } else {
          FullStaysFull(inputs[..count], Expand(rest, previous), [id] + Expand(rest, id));
        }
    }
  }

  method AddRange(inputs: array<int>, before: nat, lo: int, hi: int) returns (count: nat)
    requires inputs.Length == MAX_INPUTS && before <= MAX_INPUTS && lo <= hi
    modifies inputs
    ensures count <= MAX_INPUTS && inputs[..count] == First32(old(inputs[..before]) + Range(lo, hi))
  {
    count := before;
    var r := lo + 1;
    while r <= hi && count < MAX_INPUTS
      invariant lo + 1 <= r <= hi + 1 && count == before + (r - lo - 1) <= MAX_INPUTS
      invariant inputs[..count] == old(inputs[..before]) + Range(lo, hi)[..r - lo - 1]
    {
      inputs[count] := r;
      count := count + 1;
      r := r + 1;
    }
  }
}
