/**
 * server/Services/SearchService.cs: the token index over every ROM and the
 * search the client runs against it. The worker feeds each ROM record to a
 * `SearchIndexer`, which files the ROM's cid under every lower-case token of
 * its title, author, tags and description; when the pass ends the new index
 * replaces the service's. A query that is itself a ROM cid answers that ROM
 * alone; otherwise its first ten tokens, lower-cased, collect the cids filed
 * under them, at most thirty, which are mapped to ROM views.
 */
module Search {
  import opened Outcomes
  import opened Utils
  import opened Entities
  import opened Mapper

  /** `Take(10)` on the query's tokens and on a ROM's tags and description. */
  const MaxTokens: nat := 10
  /** `Take(30)` on the collected matches. */
  const MaxMatches: nat := 30

  /** LINQ `Take(n)`: the first `n` elements, or all when there are fewer. */
  function Take<T>(s: seq<T>, n: nat): (r: seq<T>)
    ensures |r| == (if |s| < n then |s| else n)
    ensures forall i :: 0 <= i < |r| ==> r[i] == s[i]
  {
    if |s| <= n then s else s[..n]
  }

  // ---------------------------------------------------------------------
  // Lower-casing commutes with the tokenizer
  // ---------------------------------------------------------------------

  /** `Select(t => t.ToLowerInvariant())` */
  function LowerAll(ts: seq<string>): (r: seq<string>)
    ensures |r| == |ts|
    ensures forall i :: 0 <= i < |ts| ==> r[i] == ToLowerInvariant(ts[i])
  {
    if ts == [] then [] else [ToLowerInvariant(ts[0])] + LowerAll(ts[1..])
  }

  /** Lower-casing keeps spaces, separators and white space, and makes none. */
  lemma LowerCharKeepsClass(c: char)
    ensures ToLowerChar(c) == ' ' <==> c == ' '
    ensures (ToLowerChar(c) == ',' || ToLowerChar(c) == '.') <==> (c == ',' || c == '.')
    ensures IsWhiteSpace(ToLowerChar(c)) <==> IsWhiteSpace(c)
  {
  }

  lemma LowerCons(c: char, s: string)
    ensures ToLowerInvariant([c] + s) == [ToLowerChar(c)] + ToLowerInvariant(s)
  {
    LowerAppend([c], s);
  }

  lemma LowerSlices(s: string)
    requires s != []
    ensures ToLowerInvariant(s)[1..] == ToLowerInvariant(s[1..])
    ensures ToLowerInvariant(s)[..|s| - 1] == ToLowerInvariant(s[..|s| - 1])
  {
  }

  lemma LowerAllAppend(a: seq<string>, b: seq<string>)
    ensures LowerAll(a + b) == LowerAll(a) + LowerAll(b)
  {
    assert forall i :: 0 <= i < |b| ==> (a + b)[|a| + i] == b[i];
  }

  lemma {:induction false} LowerReplace(s: string)
    ensures ReplaceSeparators(ToLowerInvariant(s)) == ToLowerInvariant(ReplaceSeparators(s))
  {
    if s != [] {
      var ls := ToLowerInvariant(s);
      LowerSlices(s);
      LowerReplace(s[1..]);
      LowerCharKeepsClass(s[0]);
      var c := if s[0] == ',' || s[0] == '.' then ' ' else s[0];
      LowerCons(c, ReplaceSeparators(s[1..]));
      assert ToLowerChar(c) == (if ls[0] == ',' || ls[0] == '.' then ' ' else ls[0]);
    }
  }

  lemma LowerPush(c: char, rest: seq<string>)
    requires |rest| > 0
    ensures PushChar(ToLowerChar(c), LowerAll(rest)) == LowerAll(PushChar(c, rest))
  {
    LowerCharKeepsClass(c);
    if c == ' ' {
      LowerAllAppend([[]], rest);
    } else {
      LowerCons(c, rest[0]);
      LowerAllAppend([[c] + rest[0]], rest[1..]);
      assert LowerAll(rest)[1..] == LowerAll(rest[1..]);
    }
  }

  lemma {:induction false} LowerSplitOnSpace(s: string)
    ensures SplitOnSpace(ToLowerInvariant(s)) == LowerAll(SplitOnSpace(s))
  {
    if s == [] {
      assert ToLowerInvariant(s) == [];
    } else {
      LowerSlices(s);
      LowerSplitOnSpace(s[1..]);
      LowerPush(s[0], SplitOnSpace(s[1..]));
    }
  }

  lemma {:induction false} LowerTrimStart(t: string)
    ensures TrimStart(ToLowerInvariant(t)) == ToLowerInvariant(TrimStart(t))
  {
    if t != [] {
      LowerCharKeepsClass(t[0]);
      if IsWhiteSpace(t[0]) {
        LowerSlices(t);
        LowerTrimStart(t[1..]);
      }
    }
  }

  lemma {:induction false} LowerTrimEnd(t: string)
    ensures TrimEnd(ToLowerInvariant(t)) == ToLowerInvariant(TrimEnd(t))
  {
    if t != [] {
      var c := t[|t| - 1];
      assert ToLowerInvariant(t)[|t| - 1] == ToLowerChar(c);
      LowerCharKeepsClass(c);
      if IsWhiteSpace(c) {
        LowerSlices(t);
        LowerTrimEnd(t[..|t| - 1]);
      }
    }
  }

  lemma {:induction false} LowerKeepTokens(parts: seq<string>)
    ensures KeepTokens(LowerAll(parts)) == LowerAll(KeepTokens(parts))
  {
    if parts != [] {
      var p := parts[0];
      LowerTrimStart(p);
      LowerTrimEnd(TrimStart(p));
      assert Trim(ToLowerInvariant(p)) == ToLowerInvariant(Trim(p));
      assert LowerAll(parts)[1..] == LowerAll(parts[1..]);
      LowerKeepTokens(parts[1..]);
      var head := if Trim(p) == [] then [] else [Trim(p)];
      LowerAllAppend(head, KeepTokens(parts[1..]));
    }
  }

  /** Splitting a lower-cased string gives the lower-cased tokens of the
      original: the index (which splits after lower-casing) and the query
      (which lower-cases after splitting) agree on the tokens. */
  lemma SplitLower(s: string)
    ensures SplitTagString(ToLowerInvariant(s)) == LowerAll(SplitTagString(s))
  {
    LowerReplace(s);
    LowerSplitOnSpace(ReplaceSeparators(s));
    LowerKeepTokens(SplitOnSpace(ReplaceSeparators(s)));
  }

  /** No token of a lower-cased string holds an upper-case letter. */
  lemma LowerTokens(s: string)
    ensures forall t :: t in SplitTagString(ToLowerInvariant(s)) ==>
      IsToken(t) && forall c :: c in t ==> !('A' <= c <= 'Z')
  {
    SplitLower(s);
  }

  // ---------------------------------------------------------------------
  // The token index (SearchIndex)
  // ---------------------------------------------------------------------

  /** The dictionary of SearchIndex: token to the cids filed under it. */
  type TokenIndex = map<string, seq<string>>

  /** The cids filed under a token; none for a token never seen. */
  function Matches(ix: TokenIndex, token: string): seq<string> {
    if token in ix then ix[token] else []
  }

  /** The index after AddRomForToken: the cid joins the end of the token's
      list, and no other token's list changes. */
  function AddToken(ix: TokenIndex, token: string, romCid: string): (r: TokenIndex)
    ensures r.Keys == ix.Keys + {token}
    ensures forall t :: Matches(r, t) == Matches(ix, t) + (if t == token then [romCid] else [])
  {
    ix[token := Matches(ix, token) + [romCid]]
  }

  /** The index after the cid is filed under each token in turn: one copy of
      the cid joins a token's list for every time the token occurs in the
      list, and nothing else changes. */
  function AddAll(ix: TokenIndex, tokens: seq<string>, romCid: string): (r: TokenIndex)
    ensures forall t :: Matches(r, t) == Matches(ix, t) + Copies(romCid, Occurrences(t, tokens))
  {
    if tokens == [] then
      assert forall t :: Matches(ix, t) + Copies(romCid, 0) == Matches(ix, t);
      ix
    else
      var init, last := tokens[..|tokens| - 1], tokens[|tokens| - 1];
      var n := Occurrences(last, init);
      assert Copies(romCid, n) + [romCid] == Copies(romCid, n + 1);
      AddToken(AddAll(ix, init, romCid), last, romCid)
  }

  lemma AddAllPrefix(ix: TokenIndex, tokens: seq<string>, i: nat, romCid: string)
    requires i < |tokens|
    ensures AddAll(ix, tokens[..i + 1], romCid) == AddToken(AddAll(ix, tokens[..i], romCid), tokens[i], romCid)
  {
    assert tokens[..i + 1][..i] == tokens[..i];
  }

  function Copies(romCid: string, n: nat): (r: seq<string>)
    ensures |r| == n && forall i :: 0 <= i < n ==> r[i] == romCid
  {
    seq(n, _ => romCid)
  }

  /** Every token of the list finds the cid, and a token not in the list
      finds exactly what it found before. */
  lemma AddAllIndexes(ix: TokenIndex, tokens: seq<string>, romCid: string, t: string)
    ensures t in tokens ==> romCid in Matches(AddAll(ix, tokens, romCid), t)
    ensures t !in tokens ==> Matches(AddAll(ix, tokens, romCid), t) == Matches(ix, t)
  {
    OccurrencesPositive(t, tokens);
    if t in tokens {
      var k := Occurrences(t, tokens);
      assert Copies(romCid, k)[0] == romCid;
      assert (Matches(ix, t) + Copies(romCid, k))[|Matches(ix, t)|] == romCid;
    } else {
      assert Copies(romCid, 0) == [];
      assert Matches(ix, t) + [] == Matches(ix, t);
    }
  }

  class SearchIndex {
    var index: TokenIndex

    constructor ()
      ensures index == map[]
    {
      index := map[];
    }

    /** AddRomForToken */
    method AddRomForToken(token: string, romCid: string)
      modifies this
      ensures index == AddToken(old(index), token, romCid)
    {
      if token in index {
        index := index[token := index[token] + [romCid]];
      } else {
        assert Matches(index, token) + [romCid] == [romCid];
        index := index[token := [romCid]];
      }
    }

    /** GetMatches: the token's list, or nothing for an unknown token. */
    function GetMatches(token: string): (r: seq<string>)
      reads this
      ensures token in index ==> r == index[token]
      ensures token !in index ==> r == []
    {
      Matches(index, token)
    }
  }

  // ---------------------------------------------------------------------
  // The indexer the worker runs over every ROM
  // ---------------------------------------------------------------------

  /** GatherTokens: the tokens of the lower-cased title and author, and the
      first ten of the lower-cased tags and of the lower-cased description. */
  function GatherTokens(info: RomInfo): (r: seq<string>)
    ensures forall t :: t in r ==> IsToken(t) && forall c :: c in t ==> !('A' <= c <= 'Z')
  {
    LowerTokens(info.title);
    LowerTokens(info.author);
    LowerTokens(info.tags);
    LowerTokens(info.description);
    var tags := SplitTagString(ToLowerInvariant(info.tags));
    var description := SplitTagString(ToLowerInvariant(info.description));
    assert forall t :: t in Take(tags, MaxTokens) ==> t in tags;
    assert forall t :: t in Take(description, MaxTokens) ==> t in description;
    SplitTagString(ToLowerInvariant(info.title))
      + SplitTagString(ToLowerInvariant(info.author))
      + Take(tags, MaxTokens)
      + Take(description, MaxTokens)
  }

  lemma LowerTake(ts: seq<string>, n: nat)
    ensures Take(LowerAll(ts), n) == LowerAll(Take(ts, n))
  {
  }

  /** The gathered tokens are the lower-cased tokens of the fields as written. */
  lemma GatherTokensLowered(info: RomInfo)
    ensures GatherTokens(info) == LowerAll(
      SplitTagString(info.title) + SplitTagString(info.author)
      + Take(SplitTagString(info.tags), MaxTokens)
      + Take(SplitTagString(info.description), MaxTokens))
  {
    SplitLower(info.title);
    SplitLower(info.author);
    SplitLower(info.tags);
    SplitLower(info.description);
    var title, author := SplitTagString(info.title), SplitTagString(info.author);
    var tags, description := SplitTagString(info.tags), SplitTagString(info.description);
    LowerTake(tags, MaxTokens);
    LowerTake(description, MaxTokens);
    LowerAllAppend(title, author);
    LowerAllAppend(title + author, Take(tags, MaxTokens));
    LowerAllAppend(title + author + Take(tags, MaxTokens), Take(description, MaxTokens));
  }

  class SearchIndexer {
    const newIndex: SearchIndex

    constructor ()
      ensures fresh(newIndex) && newIndex.index == map[]
    {
      newIndex := new SearchIndex();
    }

    /** OnEntity: the ROM's cid is filed under each gathered token in turn. */
    method OnEntity(entity: DbRom)
      modifies newIndex
      ensures newIndex.index == AddAll(old(newIndex.index), GatherTokens(entity.info), entity.RomCid())
    {
      var tokens := GatherTokens(entity.info);
      var i := 0;
      while i < |tokens|
        invariant 0 <= i <= |tokens|
        invariant newIndex.index == AddAll(old(newIndex.index), tokens[..i], entity.RomCid())
      {
        AddAllPrefix(old(newIndex.index), tokens, i, entity.RomCid());
        newIndex.AddRomForToken(tokens[i], entity.RomCid());
        i := i + 1;
      }
      assert tokens[..i] == tokens;
    }

    /** Finish: the new index is handed over (`onResult(newIndex)`). */
    method Finish() returns (result: SearchIndex)
      ensures result == newIndex
    {
      result := newIndex;
    }
  }

  // ---------------------------------------------------------------------
  // The search
  // ---------------------------------------------------------------------

  /** The query's tokens: the first ten, each lower-cased. */
  function QueryTokens(query: string): (r: seq<string>)
    ensures |r| <= MaxTokens
    ensures |r| <= |SplitTagString(query)| && forall i :: 0 <= i < |r| ==> r[i] == ToLowerInvariant(SplitTagString(query)[i])
  {
    LowerAll(Take(SplitTagString(query), MaxTokens))
  }

  /** `tokens.SelectMany(index.GetMatches)`: each token's cids, token after token. */
  function Collect(ix: TokenIndex, tokens: seq<string>): (r: seq<string>)
    ensures forall c :: c in r <==> exists t :: t in tokens && c in Matches(ix, t)
  {
    if tokens == [] then []
    else Matches(ix, tokens[0]) + Collect(ix, tokens[1..])
  }

  class SearchService {
    var index: SearchIndex

    constructor ()
      ensures fresh(index) && index.index == map[]
    {
      index := new SearchIndex();
    }

    /** Search: a query naming a ROM answers that ROM alone; any other query
        answers at most thirty ROMs, each filed under one of its tokens. */
    function Search(db: Store, query: string): (r: seq<Rom>)
      reads this, index
      ensures FindRom(db, query).Some? ==> r == [MapRom(db, query).value]
      ensures FindRom(db, query).None? ==>
        && |r| <= MaxMatches
        && forall v :: v in r ==>
             && MapRom(db, v.romCid) == Some(v)
             && exists t :: t in QueryTokens(query) && v.romCid in Matches(index.index, t)
    {
      match MapRom(db, query)
      case Some(rom) => [rom]
      case None =>
        var matches := Collect(index.index, QueryTokens(query));
        assert forall c :: c in Take(matches, MaxMatches) ==> c in matches;
        MapAll(db, Take(matches, MaxMatches))
    }

    /** OnResult: the indexer's new index replaces the current one. */
    method OnResult(newIndex: SearchIndex)
      modifies this
      ensures index == newIndex
    {
      index := newIndex;
    }
  }

  /** While the collected matches fit in thirty, every ROM filed under one of
      the query's tokens is answered. */
  lemma SearchFinds(s: SearchService, db: Store, query: string, t: string, romCid: string)
    requires FindRom(db, query).None? && FindRom(db, romCid).Some?
    requires t in QueryTokens(query) && romCid in Matches(s.index.index, t)
    requires |Collect(s.index.index, QueryTokens(query))| <= MaxMatches
    ensures MapRom(db, romCid).value in s.Search(db, query)
  {
    var matches := Collect(s.index.index, QueryTokens(query));
    assert Take(matches, MaxMatches) == matches;
    MapAllContains(db, matches, romCid);
  }

  /** A query token meets the index entry of a title word written in any
      letter case: searching "Foo" reaches a ROM titled "the FOO". */
  lemma QueryMeetsTitle(info: RomInfo, query: string, k: nat, word: string)
    requires word in SplitTagString(info.title)
    requires k < |QueryTokens(query)|
    requires ToLowerInvariant(SplitTagString(query)[k]) == ToLowerInvariant(word)
    ensures QueryTokens(query)[k] in GatherTokens(info)
  {
    SplitLower(info.title);
    var i :| 0 <= i < |SplitTagString(info.title)| && SplitTagString(info.title)[i] == word;
    assert SplitTagString(ToLowerInvariant(info.title))[i] == ToLowerInvariant(word);
  }

  /** Each word of the title and of the author, lower-cased, is gathered. */
  lemma WordGathered(info: RomInfo, word: string)
    requires word in SplitTagString(info.title) || word in SplitTagString(info.author)
    ensures ToLowerInvariant(word) in GatherTokens(info)
  {
    var field := if word in SplitTagString(info.title) then info.title else info.author;
    SplitLower(field);
    var i :| 0 <= i < |SplitTagString(field)| && SplitTagString(field)[i] == word;
    assert SplitTagString(ToLowerInvariant(field))[i] == ToLowerInvariant(word);
  }

  /** After the indexer has seen a ROM, each word of its title and author,
      lower-cased, finds the ROM's cid. */
  lemma IndexedRomFound(ix: TokenIndex, rom: DbRom, word: string)
    requires word in SplitTagString(rom.info.title) || word in SplitTagString(rom.info.author)
    ensures rom.RomCid() in Matches(AddAll(ix, GatherTokens(rom.info), rom.RomCid()), ToLowerInvariant(word))
  {
    WordGathered(rom.info, word);
    AddAllIndexes(ix, GatherTokens(rom.info), rom.RomCid(), ToLowerInvariant(word));
  }
}
