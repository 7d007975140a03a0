/**
 * The rack of the play space as sequences of letters: where an empty slot is found, how
 * recalled tiles fill the empty slots, how a dragged tile shifts its neighbours, and how
 * two racks are compared tile for tile.
 */
module Racks {
  import opened Wrappers
  import opened Letters

  // ---------------------------------------------------------------------------
  // Empty slots

  /** nextEmptyRackIndex: the first empty slot at or after start. */
  function FirstEmpty(rack: seq<Letter>, start: nat): (r: Option<nat>)
    ensures r.Some? ==> start <= r.value < |rack| && rack[r.value] == INVISIBLE_LETTER
    decreases |rack| - start
  {
    if start >= |rack| then None
    else if rack[start] == INVISIBLE_LETTER then Some(start)
    else FirstEmpty(rack, start + 1)
  }

  /** FirstEmpty finds the least empty slot at or after start, and None means there is none. */
  lemma {:induction false} FirstEmptySpec(rack: seq<Letter>, start: nat)
    ensures FirstEmpty(rack, start).Some? ==>
      var k := FirstEmpty(rack, start).value;
      start <= k < |rack| && rack[k] == INVISIBLE_LETTER
      && forall j :: start <= j < k ==> rack[j] != INVISIBLE_LETTER
    ensures FirstEmpty(rack, start).None? ==> forall j :: start <= j < |rack| ==> rack[j] != INVISIBLE_LETTER
    decreases |rack| - start
  {
    if start < |rack| && rack[start] != INVISIBLE_LETTER {
      FirstEmptySpec(rack, start + 1);
    }
  }

  /** How many of the first k slots are empty. */
  function Rank(rack: seq<Letter>, k: nat): nat
    requires k <= |rack|
  {
    if k == 0 then 0 else Rank(rack, k - 1) + (if rack[k - 1] == INVISIBLE_LETTER then 1 else 0)
  }

  /** The number of empty slots. */
  function EmptyCount(rack: seq<Letter>): nat {
    Rank(rack, |rack|)
  }

  // ---------------------------------------------------------------------------
  // Recalling tiles

  /** A tile recalled from the board: a blank shows its blank face again, keeping its value. */
  function Recalled(l: Letter): (r: Letter)
    ensures l != INVISIBLE_LETTER ==> r != INVISIBLE_LETTER
    ensures r.isBlank == l.isBlank && r.value == l.value
    ensures r.letter == if l.isBlank then BLANK else l.letter
  {
    if l.isBlank then Letter(BLANK, true, l.value) else l
  }

  /** The rack after the tiles, in order, are each put in the first empty slot; surplus tiles are dropped. */
  function Fill(rack: seq<Letter>, tiles: seq<Letter>): (r: seq<Letter>)
    ensures |r| == |rack|
    decreases |tiles|
  {
    if tiles == [] then rack
    else match FirstEmpty(rack, 0)
      case None => rack
      case Some(k) => Fill(rack[k := tiles[0]], tiles[1..])
  }

  lemma {:induction false} RankUnchangedBefore(rack: seq<Letter>, k0: nat, t: Letter, k: nat)
    requires k0 < |rack| && k <= k0
    ensures Rank(rack[k0 := t], k) == Rank(rack, k)
  {
    if k > 0 {
      RankUnchangedBefore(rack, k0, t, k - 1);
    }
  }

  lemma {:induction false} RankAfterFilling(rack: seq<Letter>, k0: nat, t: Letter, k: nat)
    requires k0 < k <= |rack| && rack[k0] == INVISIBLE_LETTER && t != INVISIBLE_LETTER
    ensures Rank(rack[k0 := t], k) == Rank(rack, k) - 1
  {
    if k == k0 + 1 {
      RankUnchangedBefore(rack, k0, t, k0);
    } else {
      RankAfterFilling(rack, k0, t, k - 1);
    }
  }

  lemma {:induction false} RankZeroBefore(rack: seq<Letter>, k: nat)
    requires k <= |rack| && forall j :: 0 <= j < k ==> rack[j] != INVISIBLE_LETTER
    ensures Rank(rack, k) == 0
  {
    if k > 0 {
      RankZeroBefore(rack, k - 1);
    }
  }

  lemma {:induction false} RankPositive(rack: seq<Letter>, k0: nat, k: nat)
    requires k0 < k <= |rack| && rack[k0] == INVISIBLE_LETTER
    ensures Rank(rack, k) >= Rank(rack, k0) + 1
  {
    if k > k0 + 1 {
      RankPositive(rack, k0, k - 1);
    }
  }

  /**
   * recallTiles's effect on the rack: the empty slots, in increasing order, receive the
   * tiles in order; slot k, the r-th empty slot, gets tile r if there is one, and every
   * other slot keeps its tile.
   */
  lemma {:induction false} FillSpec(rack: seq<Letter>, tiles: seq<Letter>)
    requires forall i :: 0 <= i < |tiles| ==> tiles[i] != INVISIBLE_LETTER
    ensures |Fill(rack, tiles)| == |rack|
    ensures forall k :: 0 <= k < |rack| ==>
      Fill(rack, tiles)[k] ==
        if rack[k] == INVISIBLE_LETTER && Rank(rack, k) < |tiles| then tiles[Rank(rack, k)] else rack[k]
    decreases |tiles|
  {
    if tiles != [] {
      FirstEmptySpec(rack, 0);
      match FirstEmpty(rack, 0)
      case None =>
      case Some(k0) =>
        var rack' := rack[k0 := tiles[0]];
        FillSpec(rack', tiles[1..]);
        forall k | 0 <= k < |rack|
          ensures Fill(rack, tiles)[k] ==
            if rack[k] == INVISIBLE_LETTER && Rank(rack, k) < |tiles| then tiles[Rank(rack, k)] else rack[k]
        {
          if k < k0 {
            RankUnchangedBefore(rack, k0, tiles[0], k);
          } else if k == k0 {
            RankZeroBefore(rack, k0);
          } else {
            RankAfterFilling(rack, k0, tiles[0], k);
            RankZeroBefore(rack, k0);
            RankPositive(rack, k0, k);
          }
        }
    }
  }

  /** A full rack takes no more tiles. */
  lemma FillFull(rack: seq<Letter>, tiles: seq<Letter>)
    requires FirstEmpty(rack, 0).None?
    ensures Fill(rack, tiles) == rack
  {
  }

  /** The rack has no empty slot exactly when the search from slot 0 finds none. */
  lemma NoEmptySlot(rack: seq<Letter>)
    ensures FirstEmpty(rack, 0).None? <==> EmptyCount(rack) == 0
  {
    FirstEmptySpec(rack, 0);
    if FirstEmpty(rack, 0).None? {
      RankZeroBefore(rack, |rack|);
    } else {
      RankPositive(rack, FirstEmpty(rack, 0).value, |rack|);
    }
  }

  /** Filling an empty slot leaves one empty slot fewer. */
  lemma FillingOneSlot(rack: seq<Letter>, k: nat, t: Letter)
    requires k < |rack| && rack[k] == INVISIBLE_LETTER && t != INVISIBLE_LETTER
    ensures EmptyCount(rack[k := t]) == EmptyCount(rack) - 1
  {
    RankAfterFilling(rack, k, t, |rack|);
  }

  /** Searching from slot s finds what searching from 0 finds when no slot before s is empty. */
  lemma {:induction false} FirstEmptySkip(rack: seq<Letter>, j: nat, s: nat)
    requires j <= s <= |rack| && forall i :: j <= i < s ==> rack[i] != INVISIBLE_LETTER
    ensures FirstEmpty(rack, j) == FirstEmpty(rack, s)
    decreases s - j
  {
    if j < s {
      FirstEmptySkip(rack, j + 1, s);
    }
  }

  /** Filling with one more tile puts it in the first slot still empty, if there is one. */
  lemma {:induction false} FillSnoc(rack: seq<Letter>, tiles: seq<Letter>, t: Letter)
    ensures Fill(rack, tiles + [t]) ==
      match FirstEmpty(Fill(rack, tiles), 0)
      case None => Fill(rack, tiles)
      case Some(k) => Fill(rack, tiles)[k := t]
    decreases |tiles|
  {
    if tiles == [] {
      assert tiles + [t] == [t];
    } else {
      assert (tiles + [t])[0] == tiles[0] && (tiles + [t])[1..] == tiles[1..] + [t];
      match FirstEmpty(rack, 0)
      case None =>
      case Some(k) =>
        FillSnoc(rack[k := tiles[0]], tiles[1..], t);
    }
  }

  /** n copies of the empty-slot sentinel. */
  function Empties(n: nat): multiset<Letter> {
    multiset{}[INVISIBLE_LETTER := n]
  }

  /**
   * No tile is lost or invented: when the rack has room for all of them, the filled rack
   * holds the old rack's tiles and the new ones, less as many empty slots as tiles.
   */
  lemma {:induction false} FillKeepsTiles(rack: seq<Letter>, tiles: seq<Letter>)
    requires |tiles| <= EmptyCount(rack)
    requires forall i :: 0 <= i < |tiles| ==> tiles[i] != INVISIBLE_LETTER
    ensures multiset(Fill(rack, tiles)) + Empties(|tiles|) == multiset(rack) + multiset(tiles)
    decreases |tiles|
  {
    if tiles != [] {
      NoEmptySlot(rack);
      var k := FirstEmpty(rack, 0).value;
      var rack' := rack[k := tiles[0]];
      FillingOneSlot(rack, k, tiles[0]);
      FillKeepsTiles(rack', tiles[1..]);
      assert tiles == [tiles[0]] + tiles[1..];
      assert multiset(rack') + multiset{INVISIBLE_LETTER} == multiset(rack) + multiset{tiles[0]};
      assert Empties(|tiles|) == Empties(|tiles| - 1) + multiset{INVISIBLE_LETTER};
      assert Fill(rack, tiles) == Fill(rack', tiles[1..]);
      calc {
        multiset(Fill(rack, tiles)) + Empties(|tiles|);
        multiset(Fill(rack', tiles[1..])) + Empties(|tiles| - 1) + multiset{INVISIBLE_LETTER};
        multiset(rack') + multiset(tiles[1..]) + multiset{INVISIBLE_LETTER};
        multiset(rack) + multiset{tiles[0]} + multiset(tiles[1..]);
        multiset(rack) + multiset(tiles);
      }
    }
  }

  // ---------------------------------------------------------------------------
  // Dragging within the rack

  /**
   * readDragIndex: the slot a tile is being dragged from is read from the shuffle state,
   * every other slot from the rack.
   */
  function DragSlot(rack: seq<Letter>, shuffle: seq<Letter>, index: int, original: Option<int>): Letter
    requires 0 <= index < |rack| && |shuffle| == |rack|
  {
    if original.Some? && index == original.value then shuffle[index] else rack[index]
  }

  /** The rack as the drag logic sees it, slot by slot. */
  function View(rack: seq<Letter>, shuffle: seq<Letter>, original: Option<int>): (v: seq<Letter>)
    requires |shuffle| == |rack|
    ensures |v| == |rack|
  {
    seq(|rack|, k requires 0 <= k < |rack| => DragSlot(rack, shuffle, k, original))
  }

  /**
   * setDragIndex: a write to a slot of the view goes to the shuffle state at the slot the
   * tile is dragged from and to the rack elsewhere. The view changes at that slot only,
   * and the slots the view hides keep their contents.
   */
  function WriteDrag(rack: seq<Letter>, shuffle: seq<Letter>, index: int, original: Option<int>, letter: Letter):
    (r: (seq<Letter>, seq<Letter>))
    requires 0 <= index < |rack| && |shuffle| == |rack|
    ensures |r.0| == |rack| && |r.1| == |rack|
    ensures View(r.0, r.1, original) == View(rack, shuffle, original)[index := letter]
    ensures forall k :: 0 <= k < |rack| && original != Some(k) ==> r.1[k] == shuffle[k]
    ensures forall k :: 0 <= k < |rack| && original == Some(k) ==> r.0[k] == rack[k]
  {
    if original.Some? && index == original.value then (rack, shuffle[index := letter])
    else (rack[index := letter], shuffle)
  }

  /**
   * nearestRackEmpty from distance delta on: the slot newIndex + delta is tried before
   * newIndex - delta, and -1 means no slot is empty.
   */
  function Nearest(v: seq<Letter>, newIndex: int, delta: nat): (r: int)
    ensures r == -1 || 0 <= r < |v|
    decreases |v| - delta
  {
    if delta >= |v| then -1
    else if 0 <= newIndex + delta < |v| && v[newIndex + delta] == INVISIBLE_LETTER then newIndex + delta
    else if 0 <= newIndex - delta < |v| && v[newIndex - delta] == INVISIBLE_LETTER then newIndex - delta
    else Nearest(v, newIndex, delta + 1)
  }

  function Distance(a: int, b: int): nat {
    if a >= b then a - b else b - a
  }

  lemma {:induction false} NearestFrom(v: seq<Letter>, newIndex: int, delta: nat)
    requires 0 <= newIndex < |v|
    requires forall k :: 0 <= k < |v| && Distance(k, newIndex) < delta ==> v[k] != INVISIBLE_LETTER
    ensures Nearest(v, newIndex, delta) == -1 <==> forall k :: 0 <= k < |v| ==> v[k] != INVISIBLE_LETTER
    ensures var r := Nearest(v, newIndex, delta);
      r != -1 ==>
        && 0 <= r < |v| && v[r] == INVISIBLE_LETTER
        && (forall k :: 0 <= k < |v| && Distance(k, newIndex) < Distance(r, newIndex) ==> v[k] != INVISIBLE_LETTER)
        && (r < newIndex ==> 2 * newIndex - r >= |v| || v[2 * newIndex - r] != INVISIBLE_LETTER)
    decreases |v| - delta
  {
    if delta < |v| {
      if 0 <= newIndex + delta < |v| && v[newIndex + delta] == INVISIBLE_LETTER {
      } else if 0 <= newIndex - delta < |v| && v[newIndex - delta] == INVISIBLE_LETTER {
      } else {
        NearestFrom(v, newIndex, delta + 1);
      }
    }
  }

  /**
   * nearestRackEmpty: -1 exactly when no slot is empty; otherwise an empty slot with no
   * empty slot closer to newIndex, and on a tie the slot to the right wins.
   */
  lemma NearestSpec(v: seq<Letter>, newIndex: int)
    requires 0 <= newIndex < |v|
    ensures Nearest(v, newIndex, 0) == -1 <==> forall k :: 0 <= k < |v| ==> v[k] != INVISIBLE_LETTER
    ensures var r := Nearest(v, newIndex, 0);
      r != -1 ==>
        && 0 <= r < |v| && v[r] == INVISIBLE_LETTER
        && (forall k :: 0 <= k < |v| && Distance(k, newIndex) < Distance(r, newIndex) ==> v[k] != INVISIBLE_LETTER)
        && (r < newIndex ==> 2 * newIndex - r >= |v| || v[2 * newIndex - r] != INVISIBLE_LETTER)
  {
    NearestFrom(v, newIndex, 0);
  }

  /**
   * shiftRack's effect on the rack view: slot `from` is emptied and every tile from there
   * up to the empty slot `to` moves one step towards `to`.
   */
  function Shifted(v: seq<Letter>, from: int, to: int): seq<Letter>
    requires 0 <= from < |v| && 0 <= to < |v|
  {
    if to >= from then v[..from] + [INVISIBLE_LETTER] + v[from..to] + v[to + 1..]
    else v[..to] + v[to + 1..from + 1] + [INVISIBLE_LETTER] + v[from + 1..]
  }

  lemma ShiftedRight(v: seq<Letter>, from: int, to: int)
    requires 0 <= from <= to < |v|
    ensures |Shifted(v, from, to)| == |v| && Shifted(v, from, to)[from] == INVISIBLE_LETTER
    ensures forall k :: from < k <= to ==> Shifted(v, from, to)[k] == v[k - 1]
    ensures forall k :: 0 <= k < from || to < k < |v| ==> Shifted(v, from, to)[k] == v[k]
  {
    var a, b, c := v[..from], v[from..to], v[to + 1..];
    assert Shifted(v, from, to) == a + [INVISIBLE_LETTER] + b + c;
    forall k | from < k <= to ensures Shifted(v, from, to)[k] == v[k - 1] {
      assert Shifted(v, from, to)[k] == b[k - from - 1];
    }
    forall k | to < k < |v| ensures Shifted(v, from, to)[k] == v[k] {
      assert Shifted(v, from, to)[k] == c[k - to - 1];
    }
  }

  lemma ShiftedLeft(v: seq<Letter>, from: int, to: int)
    requires 0 <= to < from < |v|
    ensures |Shifted(v, from, to)| == |v| && Shifted(v, from, to)[from] == INVISIBLE_LETTER
    ensures forall k :: to <= k < from ==> Shifted(v, from, to)[k] == v[k + 1]
    ensures forall k :: 0 <= k < to || from < k < |v| ==> Shifted(v, from, to)[k] == v[k]
  {
    var a, b, c := v[..to], v[to + 1..from + 1], v[from + 1..];
    assert Shifted(v, from, to) == a + b + [INVISIBLE_LETTER] + c;
    forall k | to <= k < from ensures Shifted(v, from, to)[k] == v[k + 1] {
      assert Shifted(v, from, to)[k] == b[k - to];
    }
    forall k | from < k < |v| ensures Shifted(v, from, to)[k] == v[k] {
      assert Shifted(v, from, to)[k] == c[k - from - 1];
    }
  }

  /**
   * Shifting empties slot `from`, moves each tile between `from` and `to` one step
   * towards `to`, and leaves the other slots alone.
   */
  lemma ShiftedSpec(v: seq<Letter>, from: int, to: int)
    requires 0 <= from < |v| && 0 <= to < |v|
    ensures |Shifted(v, from, to)| == |v| && Shifted(v, from, to)[from] == INVISIBLE_LETTER
    ensures forall k :: from < k <= to ==> Shifted(v, from, to)[k] == v[k - 1]
    ensures forall k :: to <= k < from ==> Shifted(v, from, to)[k] == v[k + 1]
    ensures forall k :: 0 <= k < |v| && !(from <= k <= to) && !(to <= k <= from) ==> Shifted(v, from, to)[k] == v[k]
  {
    if to >= from {
      ShiftedRight(v, from, to);
    } else {
      ShiftedLeft(v, from, to);
    }
  }

  /** As the slot shifted into was empty, shifting keeps the letters on the rack. */
  lemma ShiftedKeepsLetters(v: seq<Letter>, from: int, to: int)
    requires 0 <= from < |v| && 0 <= to < |v| && v[to] == INVISIBLE_LETTER
    ensures multiset(Shifted(v, from, to)) == multiset(v)
  {
    var e := [INVISIBLE_LETTER];
    if to >= from {
      var a, b, c := v[..from], v[from..to], v[to + 1..];
      assert v == a + b + e + c;
      SwapMiddle(a, e, b, c);
    } else {
      var a, b, c := v[..to], v[to + 1..from + 1], v[from + 1..];
      assert v == a + e + b + c;
      SwapMiddle(a, b, e, c);
    }
  }

  /** Exchanging two adjacent pieces of a sequence keeps its elements. */
  lemma SwapMiddle<T>(a: seq<T>, b: seq<T>, c: seq<T>, d: seq<T>)
    ensures multiset(a + b + c + d) == multiset(a + c + b + d)
  {
    calc {
      multiset(a + b + c + d);
      multiset(a) + multiset(b) + multiset(c) + multiset(d);
      multiset(a + c + b + d);
    }
  }

  // ---------------------------------------------------------------------------
  // Comparing racks

  function Lookup(m: map<Letter, int>, l: Letter): Option<int> {
    if l in m then Some(m[l]) else None
  }

  /**
   * countLetters: the letters present, each mapped to one less than its number of
   * occurrences, since a letter's first sighting stores 0.
   */
  method CountLetters(letters: seq<Letter>) returns (counts: map<Letter, int>)
    ensures forall l :: l in counts <==> l in letters
    ensures forall l :: l in counts ==> counts[l] == multiset(letters)[l] - 1
  {
    counts := map[];
    for i := 0 to |letters|
      invariant forall l :: l in counts <==> l in letters[..i]
      invariant forall l :: l in counts ==> counts[l] == multiset(letters[..i])[l] - 1
    {
      var letter := letters[i];
      assert letters[..i + 1] == letters[..i] + [letter];
      if letter in counts {
        counts := counts[letter := counts[letter] + 1];
      } else {
        counts := counts[letter := 0];
      }
    }
    assert letters[..|letters|] == letters;
  }

  /**
   * equalTileCounts: every letter counted in either list has the same count (or is
   * missing) in the other. That holds exactly when the lists hold the same tiles, so
   * the comparison is symmetric.
   */
  method EqualTileCounts(letters1: seq<Letter>, letters2: seq<Letter>) returns (r: bool)
    ensures r <==> multiset(letters1) == multiset(letters2)
  {
    var counts1 := CountLetters(letters1);
    var counts2 := CountLetters(letters2);
    var keys := counts1.Keys;
    while keys != {}
      invariant keys <= counts1.Keys
      invariant forall l :: l in counts1 && l !in keys ==> Lookup(counts1, l) == Lookup(counts2, l)
      decreases keys
    {
      var letter :| letter in keys;
      if Lookup(counts1, letter) != Lookup(counts2, letter) {
        assert multiset(letters1)[letter] != multiset(letters2)[letter];
        return false;
      }
      keys := keys - {letter};
    }
    keys := counts2.Keys;
    while keys != {}
      invariant keys <= counts2.Keys
      invariant forall l :: l in counts1 ==> Lookup(counts1, l) == Lookup(counts2, l)
      invariant forall l :: l in counts2 && l !in keys ==> Lookup(counts1, l) == Lookup(counts2, l)
      decreases keys
    {
      var letter :| letter in keys;
      if Lookup(counts1, letter) != Lookup(counts2, letter) {
        assert multiset(letters1)[letter] != multiset(letters2)[letter];
        return false;
      }
      keys := keys - {letter};
    }
    forall l ensures multiset(letters1)[l] == multiset(letters2)[l] {
      assert Lookup(counts1, l) == Lookup(counts2, l);
    }
    return true;
  }
}
