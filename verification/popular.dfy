/**
 * server/Services/PopularContentService.cs: the handler the worker runs over
 * every ROM record to pick the popular ROMs and tags. It keeps the first
 * seven ROMs it sees, then lets a ROM in only by pushing out one with the
 * lowest mount counter, and counts every tag of every ROM.
 */
module Popular {
  import opened Outcomes
  import opened Utils
  import opened Entities

  const MaxPopularRoms: nat := 7
  const MaxTags: nat := 7
  /** `PopularContentService.PopContentId`: the id of the one result record. */
  const PopContentId: string := "popcontentid"

  // ---------------------------------------------------------------------
  // Mount counters
  // ---------------------------------------------------------------------

  /** `selected.Min(s => s.MountCounter)` */
  function MinCounter(s: seq<DbRom>): (m: int)
    requires s != []
    ensures forall i :: 0 <= i < |s| ==> m <= s[i].mountCounter
    ensures exists i :: 0 <= i < |s| && s[i].mountCounter == m
  {
    if |s| == 1 then s[0].mountCounter
    else
      var m := MinCounter(s[..|s| - 1]);
      var last := s[|s| - 1].mountCounter;
      if last < m then last else m
  }

  /** Where `selected.First(r => r.MountCounter == c)` is found. */
  function FirstWithCounter(s: seq<DbRom>, c: int): (i: nat)
    requires exists j :: 0 <= j < |s| && s[j].mountCounter == c
    ensures i < |s| && s[i].mountCounter == c
    ensures forall j :: 0 <= j < i ==> s[j].mountCounter != c
  {
    if s[0].mountCounter == c then 0
    else
      assert exists j :: 0 <= j < |s[1..]| && s[1..][j].mountCounter == c by {
        var j :| 0 <= j < |s| && s[j].mountCounter == c;
        assert s[1..][j - 1] == s[j];
      }
      1 + FirstWithCounter(s[1..], c)
  }

  /** `selected.Remove(selected.First(r => r.MountCounter == c))` */
  function RemoveFirstWithCounter(s: seq<DbRom>, c: int): (r: seq<DbRom>)
    requires exists j :: 0 <= j < |s| && s[j].mountCounter == c
    ensures |r| == |s| - 1
    ensures multiset(r) + multiset{s[FirstWithCounter(s, c)]} == multiset(s)
  {
    var i := FirstWithCounter(s, c);
    assert s == s[..i] + [s[i]] + s[i + 1..];
    s[..i] + s[i + 1..]
  }

  // ---------------------------------------------------------------------
  // Tags
  // ---------------------------------------------------------------------

  /** Every tag of every ROM, ROM after ROM. */
  function AllTags(roms: seq<DbRom>): seq<string> {
    if roms == [] then []
    else AllTags(roms[..|roms| - 1]) + SplitTagString(roms[|roms| - 1].info.tags)
  }

  lemma AllTagsSnoc(roms: seq<DbRom>, rom: DbRom)
    ensures AllTags(roms + [rom]) == AllTags(roms) + SplitTagString(rom.info.tags)
  {
    assert (roms + [rom])[..|roms|] == roms;
  }

  lemma SnocSlice(base: seq<string>, s: seq<string>, i: nat)
    requires i < |s|
    ensures base + s[..i + 1] == (base + s[..i]) + [s[i]]
  {
    assert s[..i + 1] == s[..i] + [s[i]];
  }

  /** `counts` holds, for each tag of `all`, how often it occurs, and `order`
      lists those tags once each in the order they first occurred (the order
      the dictionary enumerates them). */
  ghost predicate Counted(counts: map<string, nat>, order: seq<string>, all: seq<string>) {
    && (forall t :: t in counts <==> t in all)
    && (forall t :: t in counts ==> counts[t] == Occurrences(t, all))
    && (forall t :: t in order <==> t in counts)
    && NoRepeats(order)
  }

  predicate NoRepeats(s: seq<string>) {
    forall i, j :: 0 <= i < j < |s| ==> s[i] != s[j]
  }

  /** A sequence without repeats holds each element at most once. */
  lemma {:induction false} NoRepeatsMultiplicity(s: seq<string>, x: string)
    requires NoRepeats(s)
    ensures multiset(s)[x] <= 1
  {
    if s != [] {
      assert s == [s[0]] + s[1..];
      assert NoRepeats(s[1..]) by {
        forall i, j | 0 <= i < j < |s[1..]| ensures s[1..][i] != s[1..][j] {
          assert s[1..][i] == s[i + 1] && s[1..][j] == s[j + 1];
        }
      }
      NoRepeatsMultiplicity(s[1..], x);
      forall k | 0 <= k < |s[1..]| ensures s[1..][k] != s[0] {
        assert s[1..][k] == s[k + 1];
      }
      assert s[0] !in s[1..];
    }
  }

  /** Sorting a sequence without repeats by count keeps its length and
      introduces no repeats, and neither has any prefix of the result. */
  lemma SortByCountNoRepeats(order: seq<string>, counts: map<string, nat>, n: nat)
    requires NoRepeats(order) && n <= |order|
    ensures |SortByCount(order, counts)| == |order|
    ensures NoRepeats(SortByCount(order, counts)[..n])
  {
    var sorted := SortByCount(order, counts);
    SortByCountSorted(order, counts);
    assert |multiset(sorted)| == |multiset(order)|;
    PermutationNoRepeats(order, sorted);
    forall i, j | 0 <= i < j < n ensures sorted[..n][i] != sorted[..n][j] {
      assert sorted[..n][i] == sorted[i] && sorted[..n][j] == sorted[j];
    }
  }

  /** A permutation of a sequence without repeats has none either. */
  lemma PermutationNoRepeats(a: seq<string>, b: seq<string>)
    requires NoRepeats(a) && multiset(a) == multiset(b)
    ensures NoRepeats(b)
  {
    forall i, j | 0 <= i < j < |b| ensures b[i] != b[j] {
      if b[i] == b[j] {
        var x := b[i];
        assert b == b[..j] + [b[j]] + b[j + 1..];
        assert x in b[..j] by { assert b[..j][i] == x; }
        assert multiset(b)[x] >= 2 by {
          assert multiset(b) == multiset(b[..j]) + multiset{x} + multiset(b[j + 1..]);
        }
        NoRepeatsMultiplicity(a, x);
        assert false;
      }
    }
  }

  /** `tagCounts[t]`, and 0 for a tag never seen. */
  function CountOf(counts: map<string, nat>, t: string): nat {
    if t in counts then counts[t] else 0
  }

  /** Highest count first. */
  predicate SortedByCount(s: seq<string>, counts: map<string, nat>) {
    forall i, j :: 0 <= i < j < |s| ==> CountOf(counts, s[i]) >= CountOf(counts, s[j])
  }

  /** `t` placed after every tag whose count is at least its own. */
  function InsertByCount(t: string, sorted: seq<string>, counts: map<string, nat>): seq<string> {
    if sorted == [] then [t]
    else if CountOf(counts, sorted[0]) >= CountOf(counts, t) then [sorted[0]] + InsertByCount(t, sorted[1..], counts)
    else [t] + sorted
  }

  /** The tags sorted by count, highest first; among equal counts the earlier
      tag stays first (`OrderByDescending` is a stable sort). */
  function SortByCount(order: seq<string>, counts: map<string, nat>): (r: seq<string>)
    ensures multiset(r) == multiset(order)
  {
    if order == [] then []
    else
      var init, last := order[..|order| - 1], order[|order| - 1];
      InsertByCountPermutes(last, SortByCount(init, counts), counts);
      assert order == init + [last];
      InsertByCount(last, SortByCount(init, counts), counts)
  }

  lemma {:induction false} InsertByCountPermutes(t: string, sorted: seq<string>, counts: map<string, nat>)
    ensures multiset(InsertByCount(t, sorted, counts)) == multiset(sorted) + multiset{t}
  {
    if sorted != [] && CountOf(counts, sorted[0]) >= CountOf(counts, t) {
      InsertByCountPermutes(t, sorted[1..], counts);
      assert sorted == [sorted[0]] + sorted[1..];
    }
  }

  /** Inserting adds `t` and nothing else. */
  lemma {:induction false} InsertByCountMembers(t: string, sorted: seq<string>, counts: map<string, nat>)
    ensures forall x :: x in InsertByCount(t, sorted, counts) ==> x == t || x in sorted
  {
    if sorted != [] && CountOf(counts, sorted[0]) >= CountOf(counts, t) {
      InsertByCountMembers(t, sorted[1..], counts);
    }
  }

  /** The head of a sorted list has the highest count. */
  lemma SortedHead(sorted: seq<string>, counts: map<string, nat>, x: string)
    requires SortedByCount(sorted, counts) && sorted != [] && x in sorted[1..]
    ensures CountOf(counts, sorted[0]) >= CountOf(counts, x)
  {
    var k :| 0 <= k < |sorted[1..]| && sorted[1..][k] == x;
    assert sorted[k + 1] == x;
  }

  lemma {:induction false} InsertByCountSorted(t: string, sorted: seq<string>, counts: map<string, nat>)
    requires SortedByCount(sorted, counts)
    ensures SortedByCount(InsertByCount(t, sorted, counts), counts)
  {
    if sorted != [] && CountOf(counts, sorted[0]) >= CountOf(counts, t) {
      var rest := InsertByCount(t, sorted[1..], counts);
      assert SortedByCount(sorted[1..], counts);
      InsertByCountSorted(t, sorted[1..], counts);
      InsertByCountMembers(t, sorted[1..], counts);
      var r := [sorted[0]] + rest;
      forall i, j | 0 <= i < j < |r| ensures CountOf(counts, r[i]) >= CountOf(counts, r[j]) {
        assert r[j] == rest[j - 1];
        if i == 0 {
          if r[j] != t {
            SortedHead(sorted, counts, r[j]);
          }
        } else {
          assert r[i] == rest[i - 1];
        }
      }
    }
  }

  /** SortByCount orders by count, highest first. */
  lemma {:induction false} SortByCountSorted(order: seq<string>, counts: map<string, nat>)
    ensures SortedByCount(SortByCount(order, counts), counts)
  {
    if order != [] {
      var init := order[..|order| - 1];
      SortByCountSorted(init, counts);
      InsertByCountSorted(order[|order| - 1], SortByCount(init, counts), counts);
    }
  }

  /** The popular ROMs and tags (DbPopContent). */
  function PopContent(selected: seq<DbRom>, tags: seq<string>): (p: DbPopContent)
    ensures p.id == PopContentId && |p.romCids| == |selected| && p.tags == tags
    ensures forall i :: 0 <= i < |selected| ==> p.romCids[i] == selected[i].RomCid()
  {
    DbPopContent(PopContentId, seq(|selected|, i requires 0 <= i < |selected| => selected[i].RomCid()), tags)
  }

  /** `selected` holds at most seven ROMs: the first seven processed, after
      which every ROM left out has a counter no higher than `lowest`, the
      lowest selected counter. `dropped` is what was processed and is not
      selected. */
  ghost predicate Selection(selected: seq<DbRom>, lowest: int, processed: seq<DbRom>, dropped: seq<DbRom>) {
    && |selected| == (if |processed| < MaxPopularRoms then |processed| else MaxPopularRoms)
    && (|processed| <= MaxPopularRoms ==> selected == processed && dropped == [])
    && multiset(processed) == multiset(selected) + multiset(dropped)
    && (selected != [] ==> lowest == MinCounter(selected))
    && (forall r :: r in dropped ==> r.mountCounter <= lowest)
  }

  /** While fewer than seven are selected, every ROM is. */
  lemma SelectWhileRoom(selected: seq<DbRom>, lowest: int, processed: seq<DbRom>, dropped: seq<DbRom>, rom: DbRom)
    requires Selection(selected, lowest, processed, dropped) && |selected| < MaxPopularRoms
    ensures Selection(selected + [rom], MinCounter(selected + [rom]), processed + [rom], dropped)
  {
  }

  /** A ROM whose counter is not above `lowest` is left out. */
  lemma SelectReject(selected: seq<DbRom>, lowest: int, processed: seq<DbRom>, dropped: seq<DbRom>, rom: DbRom)
    requires Selection(selected, lowest, processed, dropped) && |selected| == MaxPopularRoms
    requires rom.mountCounter <= lowest
    ensures Selection(selected, lowest, processed + [rom], dropped + [rom])
  {
    assert forall r :: r in dropped + [rom] ==> r in dropped || r == rom;
  }

  /** Pushing out a ROM with the lowest counter for one with a higher
      counter never lowers the lowest counter. */
  lemma ReplaceRaisesLowest(selected: seq<DbRom>, rom: DbRom)
    requires selected != [] && rom.mountCounter > MinCounter(selected)
    ensures var selected' := RemoveFirstWithCounter(selected, MinCounter(selected)) + [rom];
      MinCounter(selected') >= MinCounter(selected)
  {
    var lowest := MinCounter(selected);
    var rest := RemoveFirstWithCounter(selected, lowest);
    var selected' := rest + [rom];
    forall i | 0 <= i < |selected'| ensures selected'[i].mountCounter >= lowest {
      if i < |rest| {
        assert selected'[i] in multiset(rest);
        assert selected'[i] in multiset(selected);
      }
    }
  }

  /** A ROM whose counter is above `lowest` replaces the first ROM with the
      lowest counter; `lowest` never goes down. */
  lemma SelectReplace(selected: seq<DbRom>, lowest: int, processed: seq<DbRom>, dropped: seq<DbRom>, rom: DbRom)
    requires Selection(selected, lowest, processed, dropped) && |selected| == MaxPopularRoms
    requires rom.mountCounter > lowest
    ensures var gone := selected[FirstWithCounter(selected, lowest)];
      var selected' := RemoveFirstWithCounter(selected, lowest) + [rom];
      && Selection(selected', MinCounter(selected'), processed + [rom], dropped + [gone])
      && MinCounter(selected') >= lowest
  {
    var gone := selected[FirstWithCounter(selected, lowest)];
    var rest := RemoveFirstWithCounter(selected, lowest);
    var selected', processed', dropped' := rest + [rom], processed + [rom], dropped + [gone];
    assert |selected'| == MaxPopularRoms && |processed'| > MaxPopularRoms;
    assert multiset(processed') == multiset(selected') + multiset(dropped') by {
      assert multiset(selected) == multiset(rest) + multiset{gone};
    }
    ReplaceRaisesLowest(selected, rom);
    var lowest' := MinCounter(selected');
    assert forall r :: r in dropped' ==> r.mountCounter <= lowest' by {
      forall r | r in dropped' ensures r.mountCounter <= lowest' {
        if r != gone {
          assert r in dropped;
        }
      }
    }
  }

  class PopularUpdateContext {
    var selected: seq<DbRom>
    var tagCounts: map<string, nat>
    /** The keys of `tagCounts` in insertion order. */
    var tagOrder: seq<string>
    var lowest: int
    /** The ROMs handed to OnEntity so far, and those of them not selected. */
    ghost var processed: seq<DbRom>
    ghost var dropped: seq<DbRom>

    /** `selected` holds at most seven ROMs: the first seven processed, after
        which every ROM left out has a counter no higher than any selected
        one; `lowest` is the lowest selected counter; the tags are counted. */
    ghost predicate Valid()
      reads this
    {
      && Selection(selected, lowest, processed, dropped)
      && Counted(tagCounts, tagOrder, AllTags(processed))
    }

    constructor ()
      ensures Valid() && selected == [] && processed == [] && tagCounts == map[]
    {
      selected := [];
      tagCounts := map[];
      tagOrder := [];
      lowest := 0;
      processed := [];
      dropped := [];
    }

    /** AddOrAdd: the tag's count goes up by one, starting from 1. */
    method AddOrAdd(tag: string, ghost all: seq<string>)
      requires Counted(tagCounts, tagOrder, all)
      modifies this`tagCounts, this`tagOrder
      ensures Counted(tagCounts, tagOrder, all + [tag])
      ensures tagOrder == old(tagOrder) + (if tag in old(tagCounts) then [] else [tag])
    {
      var all' := all + [tag];
      assert all'[..|all'| - 1] == all;
      forall t ensures Occurrences(t, all') == Occurrences(t, all) + (if t == tag then 1 else 0) {
      }
      forall t ensures t in all' <==> t in all || t == tag {
        assert forall x :: x in all' <==> x in all || x == tag;
      }
      if tag !in tagCounts {
        OccurrencesPositive(tag, all);
        tagCounts := tagCounts[tag := 1];
        tagOrder := tagOrder + [tag];
      } else {
        tagCounts := tagCounts[tag := tagCounts[tag] + 1];
      }
    }

    /** ProcessTags: every token of the ROM's tag string is counted. */
    method ProcessTags(rom: DbRom)
      requires Counted(tagCounts, tagOrder, AllTags(processed))
      modifies this`tagCounts, this`tagOrder
      ensures Counted(tagCounts, tagOrder, AllTags(processed + [rom]))
    {
      var tags := SplitTagString(rom.info.tags);
      ghost var base := AllTags(processed);
      ghost var all := base;
      var i := 0;
      while i < |tags|
        invariant 0 <= i <= |tags|
        invariant all == base + tags[..i]
        invariant Counted(tagCounts, tagOrder, all)
      {
        SnocSlice(base, tags, i);
        AddOrAdd(tags[i], all);
        all := all + [tags[i]];
        i := i + 1;
      }
      assert tags[..i] == tags;
      AllTagsSnoc(processed, rom);
    }

    /** Add: the ROM joins `selected` and `lowest` is recomputed. */
    method Add(rom: DbRom)
      modifies this`selected, this`lowest
      ensures selected == old(selected) + [rom]
      ensures lowest == MinCounter(selected)
    {
      selected := selected + [rom];
      lowest := MinCounter(selected);
    }

    /** The selection half of OnEntity: the ROM is selected while fewer than
        seven are, and afterwards only when its counter beats `lowest`, in
        which case the first ROM with the lowest counter makes room. */
    method Select(rom: DbRom)
      requires Selection(selected, lowest, processed, dropped)
      modifies this`selected, this`lowest, this`processed, this`dropped
      ensures Selection(selected, lowest, processed, dropped)
      ensures processed == old(processed) + [rom]
      ensures old(|selected|) < MaxPopularRoms ==> selected == old(selected) + [rom]
      ensures old(|selected|) == MaxPopularRoms && rom.mountCounter <= old(lowest) ==> selected == old(selected)
      ensures old(|selected|) == MaxPopularRoms && rom.mountCounter > old(lowest) ==>
        selected == RemoveFirstWithCounter(old(selected), old(lowest)) + [rom]
      ensures |selected| <= MaxPopularRoms
    {
      if |selected| < MaxPopularRoms {
        SelectWhileRoom(selected, lowest, processed, dropped, rom);
        Add(rom);
      } else if rom.mountCounter > lowest {
        SelectReplace(selected, lowest, processed, dropped, rom);
        var gone := selected[FirstWithCounter(selected, lowest)];
        selected := RemoveFirstWithCounter(selected, lowest);
        Add(rom);
        dropped := dropped + [gone];
      } else {
        SelectReject(selected, lowest, processed, dropped, rom);
        dropped := dropped + [rom];
      }
      processed := processed + [rom];
    }

    /** OnEntity: the ROM's tags are counted, then the ROM is offered to the
        selection. */
    method OnEntity(rom: DbRom)
      requires Valid()
      modifies this
      ensures Valid()
      ensures processed == old(processed) + [rom]
      ensures old(|selected|) < MaxPopularRoms ==> selected == old(selected) + [rom]
      ensures old(|selected|) == MaxPopularRoms && rom.mountCounter <= old(lowest) ==> selected == old(selected)
      ensures old(|selected|) == MaxPopularRoms && rom.mountCounter > old(lowest) ==>
        selected == RemoveFirstWithCounter(old(selected), old(lowest)) + [rom]
      ensures |selected| <= MaxPopularRoms
    {
      ProcessTags(rom);
      Select(rom);
    }

    /** GetTags: the tags by count, highest first, at most seven; every tag
        left out has a count no higher than any tag emitted. */
    function GetTags(): (r: seq<string>)
      requires NoRepeats(tagOrder)
      reads this
      ensures |r| == (if |tagOrder| < MaxTags then |tagOrder| else MaxTags)
      ensures NoRepeats(r)
      ensures SortedByCount(r, tagCounts)
      ensures forall t :: t in r ==> t in tagOrder
      ensures forall t, u :: t in tagOrder && t !in r && u in r ==> CountOf(tagCounts, t) <= CountOf(tagCounts, u)
    {
      var sorted := SortByCount(tagOrder, tagCounts);
      SortByCountSorted(tagOrder, tagCounts);
      var n := if |tagOrder| < MaxTags then |tagOrder| else MaxTags;
      SortByCountNoRepeats(tagOrder, tagCounts, n);
      assert forall t :: t in sorted <==> t in tagOrder by {
        forall t ensures t in sorted <==> t in tagOrder {
          assert t in sorted <==> t in multiset(sorted);
        }
      }
      assert forall t, u :: t in sorted && t !in sorted[..n] && u in sorted[..n] ==>
          CountOf(tagCounts, t) <= CountOf(tagCounts, u) by {
        forall t, u | t in sorted && t !in sorted[..n] && u in sorted[..n]
          ensures CountOf(tagCounts, t) <= CountOf(tagCounts, u)
        {
          var i :| 0 <= i < |sorted| && sorted[i] == t;
          var j :| 0 <= j < n && sorted[..n][j] == u;
          assert i >= n;
        }
      }
      sorted[..n]
    }

    /** Finish: the result record holds the selected ROMs' cids in list order
        and the top tags. */
    method Finish() returns (result: DbPopContent)
      requires Valid()
      ensures result == PopContent(selected, GetTags())
    {
      result := PopContent(selected, GetTags());
    }
  }

  /** Every selected ROM was processed, and no ROM left out has a higher
      counter than a selected one. */
  lemma SelectedAreTop(c: PopularUpdateContext)
    requires c.Valid()
    ensures forall r :: r in c.selected ==> r in c.processed
    ensures forall r, s :: r in c.dropped && s in c.selected ==> r.mountCounter <= s.mountCounter
  {
    forall r | r in c.selected ensures r in c.processed {
      assert r in multiset(c.processed);
    }
  }
}
