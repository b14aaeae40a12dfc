/**
 * server/Utils.cs: the tag tokenizer `SplitTagString`, the Unix timestamp
 * conversion, the .NET string helpers the services rely on, and the
 * capacity-bounded dictionary `CapMap`.
 */
module Utils {
  import opened Outcomes

  // ---------------------------------------------------------------------
  // Characters and strings
  // ---------------------------------------------------------------------

  /** .NET `char.IsWhiteSpace`: the Unicode space separators, the line and
      paragraph separators, and the control characters U+0009..U+000D and U+0085. */
  predicate IsWhiteSpace(c: char) {
    || c == ' ' || ('\t' <= c <= '\r') || c == '\U{85}' || c == '\U{A0}'
    || c == '\U{1680}' || ('\U{2000}' <= c <= '\U{200A}') || c == '\U{2028}'
    || c == '\U{2029}' || c == '\U{202F}' || c == '\U{205F}' || c == '\U{3000}'
  }

  /** A character that can never survive into a tag token. */
  predicate IsBlank(c: char) {
    c == ',' || c == '.' || IsWhiteSpace(c)
  }

  /** `ToLowerInvariant` on one character (ASCII letters only). */
  function ToLowerChar(c: char): (r: char)
    ensures !('A' <= r <= 'Z')
    ensures IsBlank(r) <==> IsBlank(c)
  {
    if 'A' <= c <= 'Z' then (c as int + 32) as char else c
  }

  /** `string.ToLowerInvariant` (ASCII letters only). */
  function ToLowerInvariant(s: string): (r: string)
    ensures |r| == |s|
    ensures forall i :: 0 <= i < |s| ==> r[i] == ToLowerChar(s[i])
  {
    seq(|s|, i requires 0 <= i < |s| => ToLowerChar(s[i]))
  }

  /** Lower-casing works character by character, so it distributes over `+`. */
  lemma LowerAppend(a: string, b: string)
    ensures ToLowerInvariant(a + b) == ToLowerInvariant(a) + ToLowerInvariant(b)
  {
    var l, r := ToLowerInvariant(a + b), ToLowerInvariant(a) + ToLowerInvariant(b);
    forall i | 0 <= i < |l| ensures l[i] == r[i] {
      if i < |a| {
        assert (a + b)[i] == a[i];
      } else {
        assert (a + b)[i] == b[i - |a|];
      }
    }
  }

  // ---------------------------------------------------------------------
  // SplitTagString (Utils.cs:11-17)
  // ---------------------------------------------------------------------

  /** `Replace(",", " ").Replace(".", " ")` */
  function ReplaceSeparators(s: string): string {
    if s == [] then []
    else [if s[0] == ',' || s[0] == '.' then ' ' else s[0]] + ReplaceSeparators(s[1..])
  }

  /** `Split(" ")` before any option is applied: the pieces between spaces,
      one more piece than there are spaces. */
  function SplitOnSpace(s: string): (parts: seq<string>)
    ensures |parts| > 0
  {
    if s == [] then [[]] else PushChar(s[0], SplitOnSpace(s[1..]))
  }

  /** One character in front of the pieces of the rest: a space opens a new
      empty piece, any other character joins the first piece. */
  function PushChar(c: char, rest: seq<string>): (parts: seq<string>)
    requires |rest| > 0
    ensures |parts| > 0
  {
    if c == ' ' then [[]] + rest else [[c] + rest[0]] + rest[1..]
  }

  lemma PushCharAppend(c: char, left: seq<string>, right: seq<string>)
    requires |left| > 0
    ensures PushChar(c, left + right) == PushChar(c, left) + right
  {
    if c == ' ' {
      assert ([[]] + left) + right == [[]] + (left + right);
    } else {
      assert (left + right)[1..] == left[1..] + right;
    }
  }

  function TrimStart(t: string): string {
    if t != [] && IsWhiteSpace(t[0]) then TrimStart(t[1..]) else t
  }

  function TrimEnd(t: string): string {
    if t != [] && IsWhiteSpace(t[|t| - 1]) then TrimEnd(t[..|t| - 1]) else t
  }

  /** `string.Trim()`, which `StringSplitOptions.TrimEntries` applies to each piece. */
  function Trim(t: string): string {
    TrimEnd(TrimStart(t))
  }

  /** `TrimEntries | RemoveEmptyEntries`: trim every piece, drop the empty ones. */
  function KeepTokens(parts: seq<string>): seq<string> {
    if parts == [] then []
    else (if Trim(parts[0]) == [] then [] else [Trim(parts[0])]) + KeepTokens(parts[1..])
  }

  /** Utils.SplitTagString: the tokens of a comma, dot or space separated tag
      string. Every token is non-empty, holds no ',', '.' or ' ', and is trimmed. */
  function SplitTagString(tags: string): (r: seq<string>)
    ensures forall t :: t in r ==> IsToken(t)
  {
    var replaced := ReplaceSeparators(tags);
    ReplaceSeparatorsShape(tags);
    SplitOnSpacePieces(replaced);
    KeepTokensShape(SplitOnSpace(replaced), replaced);
    KeepTokens(SplitOnSpace(replaced))
  }

  /** What every token of SplitTagString looks like. */
  predicate IsToken(t: string) {
    && t != []
    && ',' !in t && '.' !in t && ' ' !in t
    && !IsWhiteSpace(t[0]) && !IsWhiteSpace(t[|t| - 1])
  }

  /** The tokens joined with single spaces. */
  function JoinWithSpaces(ts: seq<string>): string {
    if ts == [] then []
    else if |ts| == 1 then ts[0]
    else ts[0] + " " + JoinWithSpaces(ts[1..])
  }

  function Concat(ts: seq<string>): string {
    if ts == [] then [] else ts[0] + Concat(ts[1..])
  }

  /** The characters of s that are not blanks, in order. */
  function NonBlank(s: string): string {
    if s == [] then [] else (if IsBlank(s[0]) then [] else [s[0]]) + NonBlank(s[1..])
  }

  /** How often `t` occurs in `s`. */
  function Occurrences(t: string, s: seq<string>): nat {
    if s == [] then 0
    else Occurrences(t, s[..|s| - 1]) + (if s[|s| - 1] == t then 1 else 0)
  }

  lemma {:induction false} OccurrencesPositive(t: string, s: seq<string>)
    ensures Occurrences(t, s) > 0 <==> t in s
  {
    if s != [] {
      OccurrencesPositive(t, s[..|s| - 1]);
      assert s == s[..|s| - 1] + [s[|s| - 1]];
    }
  }

  // --- well-formedness of the tokens ---

  lemma {:induction false} ReplaceSeparatorsShape(s: string)
    ensures |ReplaceSeparators(s)| == |s|
    ensures forall c :: c in ReplaceSeparators(s) ==> c != ',' && c != '.'
  {
    if s != [] { ReplaceSeparatorsShape(s[1..]); }
  }

  lemma {:induction false} SplitOnSpacePieces(s: string)
    ensures forall p, c :: p in SplitOnSpace(s) && c in p ==> c in s && c != ' '
  {
    if s != [] {
      SplitOnSpacePieces(s[1..]);
      var rest := SplitOnSpace(s[1..]);
      if s[0] != ' ' {
        forall p, c | p in SplitOnSpace(s) && c in p ensures c in s && c != ' ' {
          if p == [s[0]] + rest[0] {
            if c != s[0] { assert c in rest[0]; }
          } else {
            assert p in rest[1..];
          }
        }
      }
    }
  }

  lemma {:induction false} TrimStartShape(t: string)
    ensures forall c :: c in TrimStart(t) ==> c in t
    ensures TrimStart(t) != [] ==> !IsWhiteSpace(TrimStart(t)[0])
    ensures NonBlank(TrimStart(t)) == NonBlank(t)
  {
    if t != [] && IsWhiteSpace(t[0]) {
      TrimStartShape(t[1..]);
      assert t == [t[0]] + t[1..];
    }
  }

  lemma {:induction false} TrimEndShape(t: string)
    ensures forall c :: c in TrimEnd(t) ==> c in t
    ensures TrimEnd(t) != [] ==> !IsWhiteSpace(TrimEnd(t)[|TrimEnd(t)| - 1])
    ensures t != [] && !IsWhiteSpace(t[0]) ==> TrimEnd(t) != [] && TrimEnd(t)[0] == t[0]
    ensures NonBlank(TrimEnd(t)) == NonBlank(t)
  {
    if t != [] && IsWhiteSpace(t[|t| - 1]) {
      var init := t[..|t| - 1];
      TrimEndShape(init);
      assert t == init + [t[|t| - 1]];
      NonBlankAppend(init, [t[|t| - 1]]);
    }
  }

  lemma TrimShape(t: string)
    ensures forall c :: c in Trim(t) ==> c in t
    ensures Trim(t) != [] ==> !IsWhiteSpace(Trim(t)[0]) && !IsWhiteSpace(Trim(t)[|Trim(t)| - 1])
    ensures NonBlank(Trim(t)) == NonBlank(t)
  {
    TrimStartShape(t);
    TrimEndShape(TrimStart(t));
  }

  lemma {:induction false} KeepTokensShape(parts: seq<string>, s: string)
    requires forall p, c :: p in parts && c in p ==> c in s && c != ' '
    requires forall c :: c in s ==> c != ',' && c != '.'
    ensures forall t :: t in KeepTokens(parts) ==> IsToken(t)
  {
    if parts != [] {
      KeepTokensShape(parts[1..], s);
      TrimShape(parts[0]);
      assert parts[0] in parts;
    }
  }

  // --- splitting distributes over a space ---

  lemma {:induction false} ReplaceSeparatorsAppend(a: string, b: string)
    ensures ReplaceSeparators(a + b) == ReplaceSeparators(a) + ReplaceSeparators(b)
  {
    if a != [] {
      ReplaceSeparatorsAppend(a[1..], b);
      assert (a + b)[1..] == a[1..] + b;
    } else {
      assert a + b == b;
    }
  }

  lemma {:induction false} SplitOnSpaceAround(a: string, b: string)
    ensures SplitOnSpace(a + " " + b) == SplitOnSpace(a) + SplitOnSpace(b)
  {
    var s := a + " " + b;
    if a == [] {
      assert s[1..] == b;
    } else {
      assert s[1..] == a[1..] + " " + b;
      SplitOnSpaceAround(a[1..], b);
      PushCharAppend(a[0], SplitOnSpace(a[1..]), SplitOnSpace(b));
    }
  }

  lemma {:induction false} KeepTokensAppend(p: seq<string>, q: seq<string>)
    ensures KeepTokens(p + q) == KeepTokens(p) + KeepTokens(q)
  {
    if p == [] {
      assert p + q == q;
    } else {
      var h := if Trim(p[0]) == [] then [] else [Trim(p[0])];
      assert (p + q)[0] == p[0] && (p + q)[1..] == p[1..] + q;
      calc {
        KeepTokens(p + q);
        h + KeepTokens(p[1..] + q);
        { KeepTokensAppend(p[1..], q); }
        h + (KeepTokens(p[1..]) + KeepTokens(q));
        (h + KeepTokens(p[1..])) + KeepTokens(q);
      }
    }
  }

  /** Tokens keep their order: the tokens of `a b` are those of a followed by those of b. */
  lemma SplitAroundSpace(a: string, b: string)
    ensures SplitTagString(a + " " + b) == SplitTagString(a) + SplitTagString(b)
  {
    ReplaceSeparatorsAppend(a + " ", b);
    ReplaceSeparatorsAppend(a, " ");
    assert ReplaceSeparators(" ") == " ";
    SplitOnSpaceAround(ReplaceSeparators(a), ReplaceSeparators(b));
    KeepTokensAppend(SplitOnSpace(ReplaceSeparators(a)), SplitOnSpace(ReplaceSeparators(b)));
  }

  // --- idempotence ---

  lemma {:induction false} NoSeparatorsUnchanged(t: string)
    requires ',' !in t && '.' !in t
    ensures ReplaceSeparators(t) == t
  {
    if t != [] {
      assert t[0] in t;
      NoSeparatorsUnchanged(t[1..]);
    }
  }

  lemma {:induction false} NoSpaceOnePiece(t: string)
    requires ' ' !in t
    ensures SplitOnSpace(t) == [t]
  {
    if t != [] {
      assert t[0] in t;
      assert forall c :: c in t[1..] ==> c in t;
      NoSpaceOnePiece(t[1..]);
      assert [t[0]] + t[1..] == t;
    }
  }

  lemma TrimmedUnchanged(t: string)
    requires t != [] && !IsWhiteSpace(t[0]) && !IsWhiteSpace(t[|t| - 1])
    ensures Trim(t) == t
  {
  }

  /** A token splits into itself. */
  lemma SplitToken(t: string)
    requires IsToken(t)
    ensures SplitTagString(t) == [t]
  {
    NoSeparatorsUnchanged(t);
    NoSpaceOnePiece(t);
    TrimmedUnchanged(t);
    assert [t][1..] == [];
    assert KeepTokens([t]) == [t] + KeepTokens([]);
  }

  /** Splitting the space-joined tokens gives the tokens back. */
  lemma {:induction false} SplitJoined(ts: seq<string>)
    requires forall t :: t in ts ==> IsToken(t)
    ensures SplitTagString(JoinWithSpaces(ts)) == ts
  {
    if ts == [] {
    } else if |ts| == 1 {
      SplitToken(ts[0]);
    } else {
      assert ts[0] in ts;
      SplitAroundSpace(ts[0], JoinWithSpaces(ts[1..]));
      SplitToken(ts[0]);
      SplitJoined(ts[1..]);
    }
  }

  /** SplitTagString is idempotent through a space-join. */
  lemma SplitIdempotent(tags: string)
    ensures SplitTagString(JoinWithSpaces(SplitTagString(tags))) == SplitTagString(tags)
  {
    SplitJoined(SplitTagString(tags));
  }

  // --- no non-blank character is lost, added or reordered ---

  lemma {:induction false} NonBlankAppend(a: string, b: string)
    ensures NonBlank(a + b) == NonBlank(a) + NonBlank(b)
  {
    if a == [] {
      assert a + b == b;
    } else {
      var h := if IsBlank(a[0]) then [] else [a[0]];
      assert (a + b)[0] == a[0] && (a + b)[1..] == a[1..] + b;
      calc {
        NonBlank(a + b);
        h + NonBlank(a[1..] + b);
        { NonBlankAppend(a[1..], b); }
        h + (NonBlank(a[1..]) + NonBlank(b));
        (h + NonBlank(a[1..])) + NonBlank(b);
      }
    }
  }

  lemma {:induction false} NonBlankReplace(s: string)
    ensures NonBlank(ReplaceSeparators(s)) == NonBlank(s)
  {
    if s != [] {
      NonBlankReplace(s[1..]);
      var head := if s[0] == ',' || s[0] == '.' then ' ' else s[0];
      NonBlankAppend([head], ReplaceSeparators(s[1..]));
    }
  }

  lemma {:induction false} NonBlankPieces(s: string)
    ensures NonBlank(Concat(SplitOnSpace(s))) == NonBlank(s)
  {
    if s != [] {
      NonBlankPieces(s[1..]);
      var rest := SplitOnSpace(s[1..]);
      assert Concat(rest) == rest[0] + Concat(rest[1..]);
      if s[0] == ' ' {
        assert Concat([[]] + rest) == Concat(rest);
      } else {
        var parts := [[s[0]] + rest[0]] + rest[1..];
        assert parts[1..] == rest[1..];
        assert Concat(parts) == [s[0]] + rest[0] + Concat(rest[1..]);
        assert Concat(parts) == [s[0]] + Concat(rest);
        NonBlankAppend([s[0]], Concat(rest));
      }
    }
  }

  lemma {:induction false} NonBlankKeep(parts: seq<string>)
    ensures NonBlank(Concat(KeepTokens(parts))) == NonBlank(Concat(parts))
  {
    if parts != [] {
      NonBlankKeep(parts[1..]);
      var head := if Trim(parts[0]) == [] then [] else [Trim(parts[0])];
      assert KeepTokens(parts) == head + KeepTokens(parts[1..]);
      ConcatAppend(head, KeepTokens(parts[1..]));
      assert Concat(head) == Trim(parts[0]);
      NonBlankAppend(Trim(parts[0]), Concat(KeepTokens(parts[1..])));
      NonBlankAppend(parts[0], Concat(parts[1..]));
      TrimShape(parts[0]);
    }
  }

  lemma {:induction false} ConcatAppend(p: seq<string>, q: seq<string>)
    ensures Concat(p + q) == Concat(p) + Concat(q)
  {
    if p == [] {
      assert p + q == q;
    } else {
      assert (p + q)[0] == p[0] && (p + q)[1..] == p[1..] + q;
      calc {
        Concat(p + q);
        p[0] + Concat(p[1..] + q);
        { ConcatAppend(p[1..], q); }
        p[0] + (Concat(p[1..]) + Concat(q));
        (p[0] + Concat(p[1..])) + Concat(q);
      }
    }
  }

  /** The tokens, read one after another, hold exactly the non-blank characters
      of the input in their input order: nothing else is dropped or reordered. */
  lemma TokensKeepCharacters(tags: string)
    ensures NonBlank(Concat(SplitTagString(tags))) == NonBlank(tags)
  {
    var r := ReplaceSeparators(tags);
    NonBlankKeep(SplitOnSpace(r));
    NonBlankPieces(r);
    NonBlankReplace(tags);
  }

  lemma {:induction false} NonBlankEmpty(s: string)
    ensures NonBlank(s) == [] <==> forall c :: c in s ==> IsBlank(c)
  {
    if s != [] {
      NonBlankEmpty(s[1..]);
      assert forall c :: c in s ==> c == s[0] || c in s[1..];
      NonBlankAppend([s[0]], s[1..]);
      assert s == [s[0]] + s[1..];
    }
  }

  /** A tag string yields no token exactly when it is made only of separators
      and white space (the empty string included). */
  lemma NoTokensIffBlank(tags: string)
    ensures SplitTagString(tags) == [] <==> forall c :: c in tags ==> IsBlank(c)
  {
    var ts := SplitTagString(tags);
    TokensKeepCharacters(tags);
    NonBlankEmpty(tags);
    if ts != [] {
      assert ts[0] in ts;
      var t := ts[0];
      assert Concat(ts) == t + Concat(ts[1..]);
      NonBlankAppend(t, Concat(ts[1..]));
      NonBlankAppend([t[0]], t[1..]);
      assert t == [t[0]] + t[1..];
      assert !IsBlank(t[0]);
    }
  }

  // ---------------------------------------------------------------------
  // Time (Utils.cs:6-9)
  // ---------------------------------------------------------------------

  /** A `DateTime` as its count of 100-nanosecond ticks since 0001-01-01 UTC. */
  type Ticks = nat

  const TicksPerMillisecond: nat := 10_000
  const TicksPerHour: nat := 36_000_000_000
  /** Milliseconds from 0001-01-01 to 1970-01-01. */
  const UnixEpochMilliseconds: nat := 62_135_596_800_000

  /** `new DateTimeOffset(utc).ToUnixTimeMilliseconds()`: the whole
      milliseconds from 1970-01-01 to `utc`, rounded down (the ticks of a
      partial millisecond are dropped). */
  function ToUnixTimestamp(utc: Ticks): (r: int)
    ensures (UnixEpochMilliseconds + r) * TicksPerMillisecond <= utc < (UnixEpochMilliseconds + r + 1) * TicksPerMillisecond
  {
    utc / TicksPerMillisecond - UnixEpochMilliseconds
  }

  /** Later instants never map to earlier timestamps. */
  lemma ToUnixTimestampMonotone(a: Ticks, b: Ticks)
    requires a <= b
    ensures ToUnixTimestamp(a) <= ToUnixTimestamp(b)
  {
  }

  // ---------------------------------------------------------------------
  // CapMap (Utils.cs:20-59)
  // ---------------------------------------------------------------------

  /** A dictionary that empties itself wholesale, before an insertion, once it
      holds more than `cap` entries. */
  class CapMap<K(==), V> {
    const cap: nat
    var items: map<K, V>

    ghost predicate Valid()
      reads this
    {
      cap == 10000 && |items| <= cap + 1
    }

    constructor ()
      ensures Valid() && items == map[]
    {
      cap := 10000;
      items := map[];
    }

    /** The entries an insertion works on: none if the map was over capacity. */
    function Cleared(): (m: map<K, V>)
      reads this
      ensures |m| <= cap
      ensures m == items || m == map[]
    {
      if |items| > cap then map[] else items
    }

    /** `Add`: `Dictionary.Add` throws on a key already present (after the clear). */
    method Add(key: K, value: V) returns (r: Outcome)
      requires Valid()
      modifies this
      ensures Valid()
      ensures r.Completed? <==> key !in old(Cleared())
      ensures r.Threw? ==> r.error == DuplicateKey && items == old(Cleared())
      ensures r.Completed? ==> items == old(Cleared())[key := value]
    {
      if |items| > cap {
        items := map[];
      }
      if key in items {
        r := Threw(DuplicateKey);
      } else {
        CardinalityAfterInsert(items, key, value);
        items := items[key := value];
        r := Completed;
      }
    }

    /** `Get`: the indexer throws on a missing key. */
    function Get(key: K): (r: Result<V>)
      reads this
      ensures r.Ok? <==> key in items
      ensures r.Ok? ==> r.value == items[key]
      ensures r.Err? ==> r.error == KeyNotFound
    {
      if key in items then Ok(items[key]) else Err(KeyNotFound)
    }

    /** `Set`: insert or overwrite, after the clear. */
    method Set(key: K, value: V)
      requires Valid()
      modifies this
      ensures Valid()
      ensures items == old(Cleared())[key := value]
      ensures TryGetValue(key) == Some(value)
    {
      if |items| > cap {
        items := map[];
      }
      CardinalityAfterInsert(items, key, value);
      items := items[key := value];
    }

    function ContainsKey(key: K): (b: bool)
      reads this
    {
      key in items
    }

    function TryGetValue(key: K): (r: Option<V>)
      reads this
      ensures r.Some? <==> ContainsKey(key)
      ensures r.Some? ==> r.value == items[key]
    {
      if key in items then Some(items[key]) else None
    }

    /** `ClearKey`: forget one key, keep every other entry. */
    method ClearKey(key: K)
      requires Valid()
      modifies this
      ensures Valid()
      ensures items == old(items) - {key}
      ensures !ContainsKey(key)
    {
      if key in items {
        CardinalityAfterRemove(items, key);
        items := items - {key};
      }
    }
  }

  lemma CardinalityAfterInsert<K, V>(m: map<K, V>, k: K, v: V)
    ensures |m[k := v]| <= |m| + 1
  {
    if k in m {
      assert m[k := v].Keys == m.Keys;
    } else {
      assert m[k := v].Keys == m.Keys + {k};
    }
  }

  lemma CardinalityAfterRemove<K, V>(m: map<K, V>, k: K)
    ensures |m - {k}| <= |m|
  {
    assert (m - {k}).Keys <= m.Keys;
    if k in m {
      assert (m - {k}).Keys == m.Keys - {k};
    }
  }
}
