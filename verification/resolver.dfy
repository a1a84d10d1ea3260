/**
 * Sort-key resolution: `normalize`, `fuzzy_find` and `sortby_to_index`.
 * A user's sort key selects the shortest column name whose normalised form
 * starts with the normalised key; keys that select nothing are dropped.
 */
module Resolver {
  import opened Wrappers
  import opened Accounts

  predicate IsAscii(c: char) { c as int <= 0x7F }

  predicate IsAsciiUpper(c: char) { 'A' <= c <= 'Z' }

  /** `str.lower()` on one ASCII character: capitals move up by 32, everything else stays. */
  function LowerAscii(c: char): char
    requires IsAscii(c)
  {
    if IsAsciiUpper(c) then (c as int + 32) as char else c
  }

  /**
   * What one character becomes under `str.lower()` followed by deleting every
   * character above 0x7F. Besides the ASCII capitals, exactly two characters
   * lower-case into ASCII: KELVIN SIGN (U+212A) becomes 'k', and LATIN
   * CAPITAL LETTER I WITH DOT ABOVE (U+0130) becomes 'i' followed by a
   * combining dot, which is then deleted. Every other non-ASCII character
   * lower-cases to non-ASCII characters and disappears.
   */
  function FoldChar(c: char): (r: string)
    ensures |r| <= 1
    ensures forall d :: d in r ==> IsAscii(d) && !IsAsciiUpper(d)
    ensures IsAscii(c) ==> r == [LowerAscii(c)]
    ensures IsAsciiUpper(c) ==> r == [(c as int + 32) as char]
    ensures IsAscii(c) && !IsAsciiUpper(c) ==> r == [c]
    ensures c == '\U{212A}' ==> r == "k"
    ensures c == '\U{0130}' ==> r == "i"
    ensures !IsAscii(c) && c != '\U{212A}' && c != '\U{0130}' ==> r == []
  {
    if IsAsciiUpper(c) then [(c as int + 32) as char]
    else if IsAscii(c) then [c]
    else if c == '\U{212A}' then "k"
    else if c == '\U{0130}' then "i"
    else []
  }

  /** `normalize`: lower-case, then delete every non-ASCII character. */
  function Normalize(s: string): (r: string)
    ensures |r| <= |s|
    ensures forall i :: 0 <= i < |r| ==> IsAscii(r[i]) && !IsAsciiUpper(r[i])
  {
    if s == [] then [] else FoldChar(s[0]) + Normalize(s[1..])
  }

  /** Normalising works character by character, so it distributes over concatenation. */
  lemma {:induction false} NormalizeAppend(a: string, b: string)
    ensures Normalize(a + b) == Normalize(a) + Normalize(b)
  {
    if a == [] {
      assert a + b == b;
    } else {
      calc {
        Normalize(a + b);
        { assert (a + b)[0] == a[0]; assert (a + b)[1..] == a[1..] + b; }
        FoldChar(a[0]) + Normalize(a[1..] + b);
        { NormalizeAppend(a[1..], b); }
        FoldChar(a[0]) + (Normalize(a[1..]) + Normalize(b));
        Normalize(a) + Normalize(b);
      }
    }
  }

  /** Normalising an already-normalised string changes nothing. */
  lemma {:induction false} NormalizeIdempotent(s: string)
    ensures Normalize(Normalize(s)) == Normalize(s)
  {
    if s != [] {
      var f := FoldChar(s[0]);
      NormalizeAppend(f, Normalize(s[1..]));
      if f != [] {
        assert f[1..] == [];
        assert Normalize(f) == f;
      }
      NormalizeIdempotent(s[1..]);
    }
  }

  /**
   * On an all-ASCII string nothing is deleted: the normal form has the same
   * length and holds, position by position, the lower-cased character.
   */
  lemma {:induction false} NormalizeAscii(s: string)
    requires forall i :: 0 <= i < |s| ==> IsAscii(s[i])
    ensures |Normalize(s)| == |s|
    ensures forall i :: 0 <= i < |s| ==> Normalize(s)[i] == LowerAscii(s[i])
  {
    if s != [] {
      NormalizeAscii(s[1..]);
      assert Normalize(s) == [LowerAscii(s[0])] + Normalize(s[1..]);
      forall i | 0 <= i < |s|
        ensures Normalize(s)[i] == LowerAscii(s[i])
      {
        if i > 0 {
          assert Normalize(s)[i] == Normalize(s[1..])[i - 1];
          assert s[i] == s[1..][i - 1];
        }
      }
    }
  }

  /**
   * A character that is neither ASCII nor one of the two that lower-case into
   * ASCII vanishes wherever it stands.
   */
  lemma NormalizeDeletes(a: string, c: char, b: string)
    requires !IsAscii(c) && c != '\U{212A}' && c != '\U{0130}'
    ensures Normalize(a + [c] + b) == Normalize(a) + Normalize(b)
  {
    var single := [c];
    assert single[1..] == [];
    assert Normalize(single) == FoldChar(c) + Normalize([]);
    NormalizeAppend(a, single);
    NormalizeAppend(a + single, b);
  }

  /** A string with only ASCII characters and no ASCII capital is its own normal form. */
  lemma {:induction false} NormalizeFixesLowerAscii(s: string)
    requires forall i :: 0 <= i < |s| ==> IsAscii(s[i]) && !IsAsciiUpper(s[i])
    ensures Normalize(s) == s
  {
    if s != [] {
      NormalizeFixesLowerAscii(s[1..]);
    }
  }

  /** `normalize(item).startswith(query)` for an already normalised query. */
  predicate Matches(item: string, normQuery: string)
  {
    normQuery <= Normalize(item)
  }

  /** The filter of the generator in `fuzzy_find`, as a predicate on items. */
  function MatchesQuery(normQuery: string): (hit: string -> bool)
    ensures forall item :: hit(item) <==> normQuery <= Normalize(item)
  {
    item => Matches(item, normQuery)
  }

  // `min(..., key=len, default=None)` over the items that pass a filter
  // `hit`. The scan is stated for any filter: its proof needs nothing about
  // what the filter tests.

  /**
   * `k` is where `min` stops among the first `n` items: an item passing the
   * filter, no longer than any other that passes, and strictly shorter than
   * every one before it that passes.
   */
  predicate FirstShortestAt(items: seq<string>, hit: string -> bool, n: nat, k: int)
    requires n <= |items|
  {
    && 0 <= k < n
    && hit(items[k])
    && (forall j :: 0 <= j < n && hit(items[j]) ==> |items[k]| <= |items[j]|)
    && (forall j :: 0 <= j < k && hit(items[j]) ==> |items[k]| < |items[j]|)
  }

  /**
   * The index of the element `min` returns among the first `n` items: it
   * scans left to right and replaces its candidate only by a strictly
   * shorter one.
   */
  function ShortestMatchIndex(items: seq<string>, hit: string -> bool, n: nat): (r: Option<nat>)
    requires n <= |items|
    ensures r.Some? ==> r.value < n && hit(items[r.value])
  {
    if n == 0 then None
    else
      var best := ShortestMatchIndex(items, hit, n - 1);
      if !hit(items[n - 1]) then best
      else if best.None? then Some(n - 1)
      else if |items[n - 1]| < |items[best.value]| then Some(n - 1)
      else best
  }

  /** The candidate survives an item that fails the filter or is no shorter. */
  lemma KeepCandidate(items: seq<string>, hit: string -> bool, n: nat, k: int)
    requires n < |items| && FirstShortestAt(items, hit, n, k)
    requires hit(items[n]) ==> |items[k]| <= |items[n]|
    ensures FirstShortestAt(items, hit, n + 1, k)
  {
  }

  /** A strictly shorter item that passes replaces the candidate. */
  lemma ReplaceCandidate(items: seq<string>, hit: string -> bool, n: nat, k: int)
    requires n < |items| && FirstShortestAt(items, hit, n, k)
    requires hit(items[n]) && |items[n]| < |items[k]|
    ensures FirstShortestAt(items, hit, n + 1, n)
  {
  }

  /** The first item that passes becomes the candidate. */
  lemma FirstCandidate(items: seq<string>, hit: string -> bool, n: nat)
    requires n < |items| && hit(items[n])
    requires forall j :: 0 <= j < n ==> !hit(items[j])
    ensures FirstShortestAt(items, hit, n + 1, n)
  {
  }

  /**
   * The scan finds nothing exactly when no item passes, and otherwise stops
   * at the first shortest item that passes.
   */
  lemma {:induction false} ShortestMatchIndexCorrect(items: seq<string>, hit: string -> bool, n: nat)
    requires n <= |items|
    ensures ShortestMatchIndex(items, hit, n).None? <==> forall j :: 0 <= j < n ==> !hit(items[j])
    ensures ShortestMatchIndex(items, hit, n).Some? ==>
      FirstShortestAt(items, hit, n, ShortestMatchIndex(items, hit, n).value)
  {
    if n > 0 {
      ShortestMatchIndexCorrect(items, hit, n - 1);
      var best := ShortestMatchIndex(items, hit, n - 1);
      if !hit(items[n - 1]) {
        if best.Some? {
          KeepCandidate(items, hit, n - 1, best.value);
        }
      } else if best.None? {
        FirstCandidate(items, hit, n - 1);
      } else if |items[n - 1]| < |items[best.value]| {
        ReplaceCandidate(items, hit, n - 1, best.value);
      } else {
        KeepCandidate(items, hit, n - 1, best.value);
      }
    }
  }

  /** At most one index is the first shortest: the tie-break leaves no choice. */
  lemma FirstShortestUnique(items: seq<string>, hit: string -> bool, n: nat, k: int, k': int)
    requires n <= |items|
    requires FirstShortestAt(items, hit, n, k) && FirstShortestAt(items, hit, n, k')
    ensures k == k'
  {
  }

  /** An item that is the only one passing is the first shortest. */
  lemma OnlyMatchIsFirstShortest(items: seq<string>, hit: string -> bool, k: nat)
    requires k < |items| && hit(items[k])
    requires forall j :: 0 <= j < |items| && j != k ==> !hit(items[j])
    ensures FirstShortestAt(items, hit, |items|, k)
  {
  }

  /** `fuzzy_find`: the shortest (first among equals) item matching the query. */
  function FuzzyFind(items: seq<string>, query: string): (r: Option<string>)
    ensures r.None? <==> forall j :: 0 <= j < |items| ==> !Matches(items[j], Normalize(query))
    ensures r.Some? ==>
      && r.value in items
      && Normalize(query) <= Normalize(r.value)
      && (forall j :: 0 <= j < |items| && Matches(items[j], Normalize(query)) ==> |r.value| <= |items[j]|)
      && exists k :: FirstShortestAt(items, MatchesQuery(Normalize(query)), |items|, k) && items[k] == r.value
  {
    var hit := MatchesQuery(Normalize(query));
    ShortestMatchIndexCorrect(items, hit, |items|);
    match ShortestMatchIndex(items, hit, |items|)
    case None => None
    case Some(k) => Some(items[k])
  }

  /**
   * The converse of `FuzzyFind`'s contract: whenever some item is the first
   * shortest match, `fuzzy_find` returns exactly that item.
   */
  lemma FuzzyFindChooses(items: seq<string>, query: string, k: nat)
    requires FirstShortestAt(items, MatchesQuery(Normalize(query)), |items|, k)
    ensures FuzzyFind(items, query) == Some(items[k])
  {
    var hit := MatchesQuery(Normalize(query));
    var m := ShortestMatchIndex(items, hit, |items|);
    ShortestMatchIndexCorrect(items, hit, |items|);
    assert m.Some?;
    FirstShortestUnique(items, hit, |items|, k, m.value);
  }

  /** `list.index`: the first position holding `v`. */
  function IndexOf(items: seq<string>, v: string): (r: nat)
    requires v in items
    ensures r < |items| && items[r] == v
    ensures forall j :: 0 <= j < r ==> items[j] != v
  {
    if items[0] == v then 0 else 1 + IndexOf(items[1..], v)
  }

  /** Every column name is truthy, so a found name is always kept. */
  lemma ColumnNamesNonEmpty(v: string)
    requires v in ColumnNames
    ensures v != ""
  {
  }

  /**
   * The condition and element of the comprehension in `sortby_to_index` for
   * one key: the key is kept when `fuzzy_find` gives a truthy (non-empty)
   * name, and becomes that name's position in the column list.
   */
  function ResolveKey(key: string): (r: Option<nat>)
    ensures r.None? <==> FuzzyFind(ColumnNames, key).None?
    ensures r.Some? ==> r.value < ColumnCount && ColumnNames[r.value] == FuzzyFind(ColumnNames, key).value
  {
    match FuzzyFind(ColumnNames, key)
    case None => None
    case Some(v) =>
      ColumnNamesNonEmpty(v);
      if v != "" then Some(IndexOf(ColumnNames, v)) else None
  }

  /** `sortby_to_index`: resolve every key, dropping those that resolve to nothing. */
  function SortByToIndex(sortby: seq<string>): (r: seq<ColumnIndex>)
    ensures |r| <= |sortby|
  {
    if sortby == [] then []
    else
      var rest := SortByToIndex(sortby[1..]);
      var key := ResolveKey(sortby[0]);
      if key.Some? then [key.value as ColumnIndex] + rest else rest
  }

  /**
   * `sortby_to_index` maps each key on its own and keeps the order of the
   * keys: resolving a concatenation is concatenating the resolutions.
   */
  lemma {:induction false} SortByToIndexAppend(a: seq<string>, b: seq<string>)
    ensures SortByToIndex(a + b) == SortByToIndex(a) + SortByToIndex(b)
  {
    if a == [] {
      assert a + b == b;
    } else {
      assert (a + b)[0] == a[0];
      assert (a + b)[1..] == a[1..] + b;
      SortByToIndexAppend(a[1..], b);
    }
  }

  /** Keys that all fail to resolve give no sort columns at all. */
  lemma {:induction false} AllKeysDropped(sortby: seq<string>)
    requires forall j :: 0 <= j < |sortby| ==> ResolveKey(sortby[j]).None?
    ensures SortByToIndex(sortby) == []
  {
    if sortby != [] {
      AllKeysDropped(sortby[1..]);
    }
  }

  /** Each key's own contribution is part of the whole result. */
  lemma KeyContributes(sortby: seq<string>, j: nat)
    requires j < |sortby|
    ensures |SortByToIndex([sortby[j]])| <= |SortByToIndex(sortby)|
  {
    var before, key, after := sortby[..j], [sortby[j]], sortby[j + 1..];
    assert key + after == sortby[j..];
    assert sortby == before + sortby[j..];
    SortByToIndexAppend(before, key + after);
    SortByToIndexAppend(key, after);
  }

  /** A key that resolves contributes a sort column wherever it stands. */
  lemma OneKeyKept(sortby: seq<string>, j: nat)
    requires j < |sortby| && ResolveKey(sortby[j]).Some?
    ensures SortByToIndex(sortby) != []
  {
    KeyContributes(sortby, j);
    SortByToIndexSingle(sortby[j]);
  }

  /** No sort columns at all exactly when every key fails to resolve. */
  lemma SortByToIndexAllDropped(sortby: seq<string>)
    ensures SortByToIndex(sortby) == [] <==> forall j :: 0 <= j < |sortby| ==> ResolveKey(sortby[j]).None?
  {
    if forall j :: 0 <= j < |sortby| ==> ResolveKey(sortby[j]).None? {
      AllKeysDropped(sortby);
    } else {
      var j :| 0 <= j < |sortby| && ResolveKey(sortby[j]).Some?;
      OneKeyKept(sortby, j);
    }
  }

  /** A single key resolves to its column's index, or to nothing. */
  lemma SortByToIndexSingle(key: string)
    ensures SortByToIndex([key]) == match ResolveKey(key) case None => [] case Some(i) => [i]
  {
  }

  /** A capital followed by lower-case ASCII normalises to its lower-case form. */
  lemma NormalizeCapitalized(c: char, rest: string)
    requires IsAsciiUpper(c)
    requires forall i :: 0 <= i < |rest| ==> IsAscii(rest[i]) && !IsAsciiUpper(rest[i])
    ensures Normalize([c] + rest) == [(c as int + 32) as char] + rest
  {
    NormalizeAppend([c], rest);
    NormalizeFixesLowerAscii(rest);
  }

  // Prefixes of the normal forms of the four column names, as far as the
  // proofs below need them. They are stated as concatenations and kept
  // short: a comparison with one whole literal makes the solver unfold
  // `Normalize` over the literal character by character.

  /** A capitalised word followed by anything normalises to a text starting with the word in lower case. */
  lemma CapitalizedPrefix(c: char, rest: string, tail: string)
    requires IsAsciiUpper(c)
    requires forall i :: 0 <= i < |rest| ==> IsAscii(rest[i]) && !IsAsciiUpper(rest[i])
    ensures [(c as int + 32) as char] + rest <= Normalize(([c] + rest) + tail)
  {
    NormalizeCapitalized(c, rest);
    NormalizeAppend([c] + rest, tail);
  }

  lemma TitlePrefix()
    ensures ['t'] + "i" <= Normalize(ColumnNames[0])
  {
    assert ColumnNames[0] == (['T'] + "i") + "tle";
    CapitalizedPrefix('T', "i", "tle");
  }

  lemma ClassificationPrefix()
    ensures ['c'] + "" <= Normalize(ColumnNames[1])
  {
    assert ColumnNames[1] == (['C'] + "") + "lassification";
    CapitalizedPrefix('C', "", "lassification");
  }

  lemma StatementPrefix()
    ensures ['s'] + "tat" <= Normalize(ColumnNames[2])
  {
    assert ColumnNames[2] == (['S'] + "tat") + "ement";
    CapitalizedPrefix('S', "tat", "ement");
  }

  /** The first word tells "Normal Balance" apart from the other keys. */
  lemma NormalBalancePrefix()
    ensures ['n'] + "ormal " <= Normalize(ColumnNames[3])
  {
    assert ColumnNames[3] == (['N'] + "ormal ") + "Balance";
    CapitalizedPrefix('N', "ormal ", "Balance");
  }

  /** The first letters of the four normalised column names, in column order. */
  const Initials: string := "tcsn"

  lemma InitialAt(j: ColumnIndex)
    ensures |Normalize(ColumnNames[j])| > 0 && Normalize(ColumnNames[j])[0] == Initials[j]
  {
    if j == 0 {
      TitlePrefix();
    } else if j == 1 {
      ClassificationPrefix();
    } else if j == 2 {
      StatementPrefix();
    } else {
      NormalBalancePrefix();
    }
  }

  lemma NotPrefixAt(item: string, normQuery: string, p: nat)
    requires p < |normQuery| && p < |Normalize(item)| && normQuery[p] != Normalize(item)[p]
    ensures !Matches(item, normQuery)
  {
  }

  /** The column names are distinct, so `list.index` finds each at its own position. */
  lemma IndexOfColumn(i: ColumnIndex)
    ensures IndexOf(ColumnNames, ColumnNames[i]) == i
  {
  }

  /** A key resolves to column `i` when `fuzzy_find` selects that column's name. */
  lemma ResolvesTo(query: string, i: ColumnIndex)
    requires FuzzyFind(ColumnNames, query) == Some(ColumnNames[i])
    ensures SortByToIndex([query]) == [i]
  {
    IndexOfColumn(i);
    assert ResolveKey(query) == Some(i);
    SortByToIndexSingle(query);
  }

  /** Every column matches the empty normal form, and "Title" is the shortest. */
  lemma TitleIsShortest()
    ensures FirstShortestAt(ColumnNames, MatchesQuery([]), |ColumnNames|, 0)
  {
  }

  /**
   * The quirk of prefix matching: a query that normalises to nothing (the
   * empty query, or one made only of other non-ASCII characters) is a prefix
   * of every column, so it selects the shortest column name, "Title".
   */
  lemma EmptyQueryResolvesToTitle(query: string)
    requires Normalize(query) == []
    ensures FuzzyFind(ColumnNames, query) == Some("Title")
    ensures SortByToIndex([query]) == [0]
  {
    TitleIsShortest();
    FuzzyFindChooses(ColumnNames, query, 0);
    ResolvesTo(query, 0);
  }

  /**
   * The four column names start with four different letters, so any
   * non-empty prefix of a column's normal form, in any letter case, selects
   * that column; in particular each column name selects itself.
   */
  lemma PrefixResolves(query: string, i: ColumnIndex)
    requires Normalize(query) != []
    requires Normalize(query) <= Normalize(ColumnNames[i])
    ensures FuzzyFind(ColumnNames, query) == Some(ColumnNames[i])
    ensures SortByToIndex([query]) == [i]
  {
    InitialAt(i);
    OtherColumnsDiffer(Normalize(query), i);
    OnlyMatchIsFirstShortest(ColumnNames, MatchesQuery(Normalize(query)), i);
    FuzzyFindChooses(ColumnNames, query, i);
    ResolvesTo(query, i);
  }

  lemma InitialsDistinct(i: ColumnIndex, j: ColumnIndex)
    requires i != j
    ensures Initials[i] != Initials[j]
  {
  }

  /** A normal form that does not start with column `j`'s initial does not match it. */
  lemma InitialMismatch(normQuery: string, j: ColumnIndex)
    requires normQuery != [] && normQuery[0] != Initials[j]
    ensures !Matches(ColumnNames[j], normQuery)
  {
    InitialAt(j);
    NotPrefixAt(ColumnNames[j], normQuery, 0);
  }

  /** A normal form starting with column `i`'s initial matches no other column. */
  lemma OtherColumnsDiffer(normQuery: string, i: ColumnIndex)
    requires normQuery != [] && normQuery[0] == Initials[i]
    ensures forall j :: 0 <= j < |ColumnNames| && j != i ==> !Matches(ColumnNames[j], normQuery)
  {
    forall j: ColumnIndex | j != i
      ensures !Matches(ColumnNames[j], normQuery)
    {
      InitialsDistinct(i, j);
      InitialMismatch(normQuery, j);
    }
  }

  /** A key that matches no column is not found, and `sortby_to_index` drops it. */
  lemma NoColumnMatches(query: string)
    requires forall j: ColumnIndex :: !Matches(ColumnNames[j], Normalize(query))
    ensures FuzzyFind(ColumnNames, query) == None
    ensures SortByToIndex([query]) == []
  {
    assert [query][1..] == [];
  }

  /** A key whose normal form starts with no column's initial is dropped. */
  lemma UnknownInitialDropped(query: string)
    requires Normalize(query) != [] && Normalize(query)[0] !in Initials
    ensures FuzzyFind(ColumnNames, query) == None
    ensures SortByToIndex([query]) == []
  {
    forall j: ColumnIndex
      ensures !Matches(ColumnNames[j], Normalize(query))
    {
      InitialMismatch(Normalize(query), j);
    }
    NoColumnMatches(query);
  }

  lemma PrefixCharAt(p: string, s: string, i: nat)
    requires p <= s && i < |p|
    ensures i < |s| && s[i] == p[i]
  {
  }

  /** A normal form whose third letter is not 'r' does not match "Normal Balance". */
  lemma NormalBalanceMismatch(normQuery: string)
    requires |normQuery| >= 3 && normQuery[2] != 'r'
    ensures !Matches(ColumnNames[3], normQuery)
  {
    NormalBalancePrefix();
    PrefixCharAt(['n'] + "ormal ", Normalize(ColumnNames[3]), 2);
    assert (['n'] + "ormal ")[2] == 'r';
    NotPrefixAt(ColumnNames[3], normQuery, 2);
  }

  /**
   * A key that starts like "normal balance" but leaves it at the third
   * letter matches no column and is dropped.
   */
  lemma LeavesNormalBalanceDropped(query: string)
    requires |Normalize(query)| >= 3 && Normalize(query)[0] == 'n' && Normalize(query)[2] != 'r'
    ensures FuzzyFind(ColumnNames, query) == None
    ensures SortByToIndex([query]) == []
  {
    var nq := Normalize(query);
    forall j: ColumnIndex
      ensures !Matches(ColumnNames[j], nq)
    {
      if j == 3 {
        NormalBalanceMismatch(nq);
      } else {
        InitialsDistinct(3, j);
        InitialMismatch(nq, j);
      }
    }
    NoColumnMatches(query);
  }

  /** "zzz" starts with no column's initial, so it is not found. */
  lemma ZzzNotFound()
    ensures FuzzyFind(ColumnNames, "zzz") == None
  {
    NormalizeFixesLowerAscii("zzz");
    UnknownInitialDropped("zzz");
  }

  /** "nonexistent" leaves "normal balance" at its third letter, so it is dropped. */
  lemma NonexistentDropped()
    ensures FuzzyFind(ColumnNames, "nonexistent") == None
    ensures SortByToIndex(["nonexistent"]) == []
  {
    NormalizeFixesLowerAscii("nonexistent");
    LeavesNormalBalanceDropped("nonexistent");
  }

  lemma StatResolves()
    ensures SortByToIndex(["stat"]) == [2]
  {
    NormalizeFixesLowerAscii("stat");
    StatementPrefix();
    PrefixResolves("stat", 2);
  }

  lemma UpperTiResolves()
    ensures SortByToIndex(["TI"]) == [0]
  {
    assert "TI" == ['T'] + ['I'];
    NormalizeAppend(['T'], ['I']);
    TitlePrefix();
    PrefixResolves("TI", 0);
  }

  lemma XDropped()
    ensures SortByToIndex(["x"]) == []
  {
    NormalizeFixesLowerAscii("x");
    UnknownInitialDropped("x");
  }

  lemma NResolves()
    ensures SortByToIndex(["n"]) == [3]
  {
    NormalizeFixesLowerAscii("n");
    NormalBalancePrefix();
    PrefixResolves("n", 3);
  }
}
