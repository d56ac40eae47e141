/**
 * Title entries of a LOOF result page: how one list item becomes a title,
 * and the newest-first order the lookup sorts them into.
 *
 * The source compares titles through JavaScript dates built from
 * `DD-MM-YYYY`; here a title's date is the integer key YYYYMMDD, and an
 * undated title gets key -1. Sorting is a stable insertion sort on that key,
 * descending, so undated titles come last and titles with the same key keep
 * the order in which the page lists them.
 */
module TitleOrder {
  import opened Wrappers
  import opened JsText
  import opened LoofTypes

  /** One `<li>` of the title list: the text of its title span and the text of the whole item. */
  datatype ListItem = ListItem(titleText: string, itemText: string)

  const ObtenuLe: string := "Obtenu le"
  const Federation: string := "LOOF"

  /** The `\d{2}-\d{2}-\d{4}` shape of a captured date. */
  predicate IsDateShape(d: string)
  {
    |d| == 10 && d[2] == '-' && d[5] == '-'
    && IsDigit(d[0]) && IsDigit(d[1]) && IsDigit(d[3]) && IsDigit(d[4])
    && IsDigit(d[6]) && IsDigit(d[7]) && IsDigit(d[8]) && IsDigit(d[9])
  }

  /** The first index at or after `i` that is not white space (`\s*`, greedy). */
  function SkipSpaces(s: string, i: nat): (j: nat)
    requires i <= |s|
    decreases |s| - i
    ensures i <= j <= |s|
    ensures j == |s| || !IsSpace(s[j])
    ensures AllSpace(s[i..j])
  {
    if i < |s| && IsSpace(s[i]) then
      var j := SkipSpaces(s, i + 1);
      assert s[i..j] == [s[i]] + s[i + 1..j];
      j
    else i
  }

  /** White space up to a position that ends the string or holds something else is exactly what `SkipSpaces` skips. */
  lemma {:induction false} SkipSpacesStopsAt(s: string, i: nat, j: nat)
    requires i <= j <= |s| && AllSpace(s[i..j]) && (j == |s| || !IsSpace(s[j]))
    decreases j - i
    ensures SkipSpaces(s, i) == j
  {
    if i < j {
      assert s[i] == s[i..j][0];
      assert s[i + 1..j] == s[i..j][1..];
      SkipSpacesStopsAt(s, i + 1, j);
    }
  }

  /**
   * The text matches `Obtenu le\s*:\s*(\d{2}-\d{2}-\d{4})` from `i`, with the
   * colon at `j` and the captured date at `k`.
   */
  predicate MatchShape(s: string, i: nat, j: nat, k: nat)
  {
    i + |ObtenuLe| <= j < k && k + 10 <= |s|
    && s[i..i + |ObtenuLe|] == ObtenuLe && AllSpace(s[i + |ObtenuLe|..j])
    && s[j] == ':' && AllSpace(s[j + 1..k]) && IsDateShape(s[k..k + 10])
  }

  /**
   * The date captured by `Obtenu le\s*:\s*(\d{2}-\d{2}-\d{4})` when a match
   * starts exactly at `i`. Each `\s*` is followed by a character that is not
   * white space, so the greedy reading is the only one.
   */
  function DateMatchAt(s: string, i: nat): (r: Option<string>)
    requires i <= |s|
    ensures r.Some? ==> StartsWith(s[i..], ObtenuLe) && IsDateShape(r.value)
  {
    if !StartsWith(s[i..], ObtenuLe) then None
    else
      var j := SkipSpaces(s, i + |ObtenuLe|);
      if j == |s| || s[j] != ':' then None
      else
        var k := SkipSpaces(s, j + 1);
        if k + 10 <= |s| && IsDateShape(s[k..k + 10]) then Some(s[k..k + 10]) else None
  }

  /** A match found at `i` is the pattern, and what it returns is the ten characters the group captures. */
  lemma DateMatchAtSound(s: string, i: nat)
    requires i <= |s| && DateMatchAt(s, i).Some?
    ensures exists j: nat, k: nat :: MatchShape(s, i, j, k) && DateMatchAt(s, i).value == s[k..k + 10]
  {
    var j := SkipSpaces(s, i + |ObtenuLe|);
    var k := SkipSpaces(s, j + 1);
    assert s[i..i + |ObtenuLe|] == s[i..][..|ObtenuLe|];
    assert MatchShape(s, i, j, k);
  }

  /** Wherever the pattern occurs from `i`, `DateMatchAt` finds it and returns the captured date. */
  lemma DateMatchAtComplete(s: string, i: nat, j: nat, k: nat)
    requires MatchShape(s, i, j, k)
    ensures DateMatchAt(s, i) == Some(s[k..k + 10])
  {
    var d := s[k..k + 10];
    assert IsDateShape(d);
    assert s[k] == d[0];
    assert s[i..][..|ObtenuLe|] == s[i..i + |ObtenuLe|];
    SkipSpacesStopsAt(s, i + |ObtenuLe|, j);
    SkipSpacesStopsAt(s, j + 1, k);
  }

  /** The leftmost position at or after `from` where the date pattern matches. */
  function FirstDateMatch(s: string, from: nat): (r: Option<nat>)
    requires from <= |s|
    decreases |s| - from
    ensures r.Some? ==> from <= r.value <= |s| && DateMatchAt(s, r.value).Some?
    ensures r.Some? ==> forall k :: from <= k < r.value ==> DateMatchAt(s, k).None?
    ensures r.None? ==> forall k :: from <= k <= |s| ==> DateMatchAt(s, k).None?
  {
    if DateMatchAt(s, from).Some? then Some(from)
    else if from == |s| then None
    else FirstDateMatch(s, from + 1)
  }

  /** `date_obtention`: the date of the leftmost match in the item's text, or `""` when none matches. */
  function DateObtention(itemText: string): (d: string)
    ensures d == "" || IsDateShape(d)
  {
    match FirstDateMatch(itemText, 0)
    case None => ""
    case Some(i) => DateMatchAt(itemText, i).value
  }

  /** The date is `""` exactly when the pattern matches nowhere, and otherwise is what the leftmost match captures. */
  lemma DateObtentionIsLeftmostMatch(itemText: string)
    ensures DateObtention(itemText) == "" <==> forall k :: 0 <= k <= |itemText| ==> DateMatchAt(itemText, k).None?
    ensures DateObtention(itemText) != "" ==>
      exists i :: (0 <= i <= |itemText| && DateMatchAt(itemText, i) == Some(DateObtention(itemText))
        && forall k :: 0 <= k < i ==> DateMatchAt(itemText, k).None?)
  {
    match FirstDateMatch(itemText, 0)
    case None =>
    case Some(i) =>
      assert DateMatchAt(itemText, i) == Some(DateObtention(itemText));
  }

  /** `date.split('-')[2]` for a date of the captured shape: its four year digits. */
  function Year(d: string): (y: string)
    requires IsDateShape(d)
    ensures |y| == 4 && AllDigits(y) && d == d[..6] + y
  {
    d[6..]
  }

  /** The title a list item yields, or `None` when its trimmed title text is empty. */
  function BuildTitle(item: ListItem): (r: Option<Titre>)
    ensures r.Some? <==> Trim(item.titleText) != ""
    ensures r.Some? ==> r.value.federation == Federation
    ensures r.Some? ==> r.value.dateObtention == DateObtention(item.itemText)
    ensures r.Some? && r.value.dateObtention == "" ==> r.value.titre == Trim(item.titleText)
    ensures r.Some? && r.value.dateObtention != "" ==>
      r.value.titre == Trim(item.titleText) + " (" + Year(r.value.dateObtention) + ")"
  {
    var titre := Trim(item.titleText);
    var date := DateObtention(item.itemText);
    if titre == "" then None
    else
      var year := if date != "" then Year(date) else "";
      Some(Titre(if year != "" then titre + " (" + year + ")" else titre, Federation, date))
  }

  /** The values `f` gives for the elements of `s`, in order, skipping the `None`s. */
  function Collect<A, B>(s: seq<A>, f: A -> Option<B>): seq<B>
  {
    if s == [] then []
    else Collect(s[..|s| - 1], f) + (if f(s[|s| - 1]).Some? then [f(s[|s| - 1]).value] else [])
  }

  /** Collecting is done element by element in order: it distributes over concatenation. */
  lemma {:induction false} CollectConcat<A, B>(a: seq<A>, b: seq<A>, f: A -> Option<B>)
    ensures Collect(a + b, f) == Collect(a, f) + Collect(b, f)
  {
    if b == [] {
      assert a + b == a;
    } else {
      assert (a + b)[..|a + b| - 1] == a + b[..|b| - 1];
      assert (a + b)[|a + b| - 1] == b[|b| - 1];
      CollectConcat(a, b[..|b| - 1], f);
    }
  }

  lemma {:induction false} CollectLength<A, B>(s: seq<A>, f: A -> Option<B>)
    ensures |Collect(s, f)| <= |s|
  {
    if s != [] {
      CollectLength(s[..|s| - 1], f);
    }
  }

  /** Nothing is collected exactly when `f` gives `None` for every element. */
  lemma {:induction false} CollectEmpty<A, B>(s: seq<A>, f: A -> Option<B>)
    ensures Collect(s, f) == [] <==> forall i :: 0 <= i < |s| ==> f(s[i]).None?
  {
    if s != [] {
      var init := s[..|s| - 1];
      CollectEmpty(init, f);
      assert forall i :: 0 <= i < |init| ==> init[i] == s[i];
    }
  }

  /** Every collected value comes from some element. */
  lemma {:induction false} CollectSound<A, B>(s: seq<A>, f: A -> Option<B>, y: B)
    requires y in Collect(s, f)
    ensures exists i :: 0 <= i < |s| && f(s[i]) == Some(y)
  {
    var init := s[..|s| - 1];
    if y in Collect(init, f) {
      CollectSound(init, f, y);
      var i :| 0 <= i < |init| && f(init[i]) == Some(y);
      assert s[i] == init[i];
    } else {
      assert f(s[|s| - 1]) == Some(y);
    }
  }

  /** Every value `f` gives is collected. */
  lemma {:induction false} CollectComplete<A, B>(s: seq<A>, f: A -> Option<B>, i: nat)
    requires i < |s| && f(s[i]).Some?
    ensures f(s[i]).value in Collect(s, f)
  {
    var init := s[..|s| - 1];
    if i < |init| {
      assert s[i] == init[i];
      CollectComplete(init, f, i);
    }
  }

  /** The titles the list items yield, in page order (the `push`es of the `.each` loop). */
  function BuildTitles(items: seq<ListItem>): (r: seq<Titre>)
    ensures |r| <= |items|
  {
    CollectLength(items, BuildTitle);
    Collect(items, BuildTitle)
  }

  /** No item of `items` has a non-empty title. */
  predicate NoTitle(items: seq<ListItem>)
  {
    forall i :: 0 <= i < |items| ==> Trim(items[i].titleText) == ""
  }

  /** No title is built exactly when every item's trimmed title text is empty. */
  lemma BuildTitlesEmpty(items: seq<ListItem>)
    ensures BuildTitles(items) == [] <==> NoTitle(items)
  {
    CollectEmpty(items, BuildTitle);
  }

  /** Every built title is the title of some item. */
  lemma BuildTitlesSound(items: seq<ListItem>, t: Titre)
    requires t in BuildTitles(items)
    ensures exists i :: 0 <= i < |items| && BuildTitle(items[i]) == Some(t)
  {
    CollectSound(items, BuildTitle, t);
  }

  /** Every item with a non-empty title contributes its title. */
  lemma BuildTitlesComplete(items: seq<ListItem>, i: nat)
    requires i < |items| && Trim(items[i].titleText) != ""
    ensures BuildTitle(items[i]).Some? && BuildTitle(items[i]).value in BuildTitles(items)
  {
    CollectComplete(items, BuildTitle, i);
  }

  /** Every title the lookup builds is attributed to the LOOF and carries `""` or a `DD-MM-YYYY` date. */
  lemma BuiltTitlesAreWellFormed(items: seq<ListItem>, t: Titre)
    requires t in BuildTitles(items)
    ensures t.federation == Federation && (t.dateObtention == "" || IsDateShape(t.dateObtention))
  {
    BuildTitlesSound(items, t);
  }

  // ---------------------------------------------------------------------------
  // Order
  // ---------------------------------------------------------------------------

  function TwoDigits(d: string, i: nat): (v: nat)
    requires i + 2 <= |d| && IsDigit(d[i]) && IsDigit(d[i + 1])
    ensures v < 100
  {
    DigitValue(d[i]) * 10 + DigitValue(d[i + 1])
  }

  function DayOf(d: string): nat requires IsDateShape(d) { TwoDigits(d, 0) }
  function MonthOf(d: string): nat requires IsDateShape(d) { TwoDigits(d, 3) }
  function YearOf(d: string): nat requires IsDateShape(d) { TwoDigits(d, 6) * 100 + TwoDigits(d, 8) }

  /** The sort key of a title: YYYYMMDD for a dated title, -1 for an undated one. */
  function Rank(t: Titre): (k: int)
    ensures k >= -1
    ensures k == -1 <==> !IsDateShape(t.dateObtention)
  {
    var d := t.dateObtention;
    if IsDateShape(d) then YearOf(d) * 10000 + MonthOf(d) * 100 + DayOf(d) else -1
  }

  /** `(year, month, day)` of `a` comes strictly after that of `b`. */
  predicate LaterDate(a: string, b: string)
    requires IsDateShape(a) && IsDateShape(b)
  {
    YearOf(a) > YearOf(b)
    || (YearOf(a) == YearOf(b) && MonthOf(a) > MonthOf(b))
    || (YearOf(a) == YearOf(b) && MonthOf(a) == MonthOf(b) && DayOf(a) > DayOf(b))
  }

  /** Comparing keys is comparing `(year, month, day)` lexicographically. */
  lemma RankIsDateOrder(a: Titre, b: Titre)
    requires IsDateShape(a.dateObtention) && IsDateShape(b.dateObtention)
    ensures Rank(a) > Rank(b) <==> LaterDate(a.dateObtention, b.dateObtention)
    ensures Rank(a) == Rank(b) <==>
      (YearOf(a.dateObtention), MonthOf(a.dateObtention), DayOf(a.dateObtention))
      == (YearOf(b.dateObtention), MonthOf(b.dateObtention), DayOf(b.dateObtention))
  {
  }

  /**
   * The sort itself is stated for any key, so that its proofs never look
   * inside `Rank`. `Desc(s, key)`: no element is preceded by one with a smaller key.
   */
  predicate Desc<T>(s: seq<T>, key: T -> int)
  {
    forall i, j :: 0 <= i < j < |s| ==> key(s[i]) >= key(s[j])
  }

  /** Where a stable descending insertion puts `x` in `s`: after every element whose key is at least `x`'s. */
  function InsertPos<T>(s: seq<T>, x: T, key: T -> int): (p: nat)
    ensures p <= |s|
    ensures forall k :: p <= k < |s| ==> key(s[k]) < key(x)
    ensures p > 0 ==> key(s[p - 1]) >= key(x)
  {
    if s == [] || key(s[|s| - 1]) >= key(x) then |s|
    else InsertPos(s[..|s| - 1], x, key)
  }

  /** The insertion position is the only one with smaller keys after it and a key at least `x`'s just before it. */
  lemma {:induction false} InsertPosUnique<T>(s: seq<T>, x: T, key: T -> int, p: nat)
    requires p <= |s|
    requires forall k :: p <= k < |s| ==> key(s[k]) < key(x)
    requires p == 0 || key(s[p - 1]) >= key(x)
    ensures InsertPos(s, x, key) == p
  {
    if p < |s| {
      var init := s[..|s| - 1];
      assert forall k :: p <= k < |init| ==> init[k] == s[k];
      InsertPosUnique(init, x, key, p);
    }
  }

  function Insert<T>(s: seq<T>, x: T, key: T -> int): seq<T>
  {
    var p := InsertPos(s, x, key);
    s[..p] + [x] + s[p..]
  }

  /** Stable insertion sort, largest key first. */
  function SortDesc<T>(s: seq<T>, key: T -> int): seq<T>
  {
    if s == [] then [] else Insert(SortDesc(s[..|s| - 1], key), s[|s| - 1], key)
  }

  lemma InsertKeepsOrder<T>(s: seq<T>, x: T, key: T -> int)
    requires Desc(s, key)
    ensures Desc(Insert(s, x, key), key)
  {
    var p := InsertPos(s, x, key);
    var r := Insert(s, x, key);
    assert |r| == |s| + 1;
    forall i, j | 0 <= i < j < |r| ensures key(r[i]) >= key(r[j]) {
      if j < p {
        assert r[i] == s[i] && r[j] == s[j];
      } else if j == p {
        assert r[i] == s[i] && r[j] == x;
        assert key(s[i]) >= key(s[p - 1]);
      } else if i < p {
        assert r[i] == s[i] && r[j] == s[j - 1];
      } else if i == p {
        assert r[i] == x && r[j] == s[j - 1];
      } else {
        assert r[i] == s[i - 1] && r[j] == s[j - 1];
      }
    }
  }

  lemma InsertIsPermutation<T>(s: seq<T>, x: T, key: T -> int)
    ensures multiset(Insert(s, x, key)) == multiset(s) + multiset{x}
  {
    var p := InsertPos(s, x, key);
    assert s == s[..p] + s[p..];
  }

  /** The elements of `s` whose key is `k`, in order. */
  function WithKey<T>(s: seq<T>, key: T -> int, k: int): seq<T>
  {
    if s == [] then []
    else WithKey(s[..|s| - 1], key, k) + (if key(s[|s| - 1]) == k then [s[|s| - 1]] else [])
  }

  lemma {:induction false} WithKeyConcat<T>(a: seq<T>, b: seq<T>, key: T -> int, k: int)
    ensures WithKey(a + b, key, k) == WithKey(a, key, k) + WithKey(b, key, k)
  {
    if b == [] {
      assert a + b == a;
    } else {
      var b' := b[..|b| - 1];
      assert (a + b)[..|a + b| - 1] == a + b';
      assert (a + b)[|a + b| - 1] == b[|b| - 1];
      WithKeyConcat(a, b', key, k);
    }
  }

  lemma {:induction false} WithKeyNone<T>(s: seq<T>, key: T -> int, k: int)
    requires forall i :: 0 <= i < |s| ==> key(s[i]) != k
    ensures WithKey(s, key, k) == []
  {
    if s != [] {
      WithKeyNone(s[..|s| - 1], key, k);
    }
  }

  lemma WithKeySingleton<T>(x: T, key: T -> int, k: int)
    ensures WithKey([x], key, k) == if key(x) == k then [x] else []
  {
    assert [x][..0] == [];
  }

  /** Putting `x` in front of elements with smaller keys adds it last among those with its key. */
  lemma InsertAtIsStable<T>(s: seq<T>, x: T, key: T -> int, k: int, p: nat)
    requires p <= |s|
    requires forall i :: p <= i < |s| ==> key(s[i]) < key(x)
    ensures WithKey(s[..p] + [x] + s[p..], key, k) == WithKey(s, key, k) + (if key(x) == k then [x] else [])
  {
    var front, back := s[..p], s[p..];
    assert s == front + back;
    WithKeyConcat(front + [x], back, key, k);
    WithKeyConcat(front, [x], key, k);
    WithKeyConcat(front, back, key, k);
    WithKeySingleton(x, key, k);
    if key(x) == k {
      assert forall i :: 0 <= i < |back| ==> back[i] == s[p + i];
      WithKeyNone(back, key, k);
    }
  }

  lemma InsertIsStable<T>(s: seq<T>, x: T, key: T -> int, k: int)
    ensures WithKey(Insert(s, x, key), key, k) == WithKey(s, key, k) + (if key(x) == k then [x] else [])
  {
    InsertAtIsStable(s, x, key, k, InsertPos(s, x, key));
  }

  /**
   * `SortDesc` returns the same elements, largest key first, and elements
   * sharing a key keep their relative order.
   */
  lemma {:induction false} SortDescSpec<T>(s: seq<T>, key: T -> int)
    ensures multiset(SortDesc(s, key)) == multiset(s)
    ensures |SortDesc(s, key)| == |s|
    ensures Desc(SortDesc(s, key), key)
    ensures forall k :: WithKey(SortDesc(s, key), key, k) == WithKey(s, key, k)
  {
    if s != [] {
      var init, x := s[..|s| - 1], s[|s| - 1];
      var sorted := SortDesc(init, key);
      SortDescSpec(init, key);
      InsertIsPermutation(sorted, x, key);
      InsertKeepsOrder(sorted, x, key);
      assert s == init + [x];
      forall k ensures WithKey(SortDesc(s, key), key, k) == WithKey(s, key, k) {
        InsertIsStable(sorted, x, key, k);
      }
      assert |SortDesc(s, key)| == |multiset(SortDesc(s, key))| == |multiset(s)| == |s|;
    }
  }

  /** Newest first: no title is preceded by one with a smaller key. */
  predicate NewestFirst(s: seq<Titre>)
  {
    Desc(s, Rank)
  }

  /** The titles sorted newest first, undated last, ties in their original order. */
  function SortByDate(s: seq<Titre>): (r: seq<Titre>)
    ensures multiset(r) == multiset(s) && NewestFirst(r)
  {
    SortDescSpec(s, Rank);
    SortDesc(s, Rank)
  }

  /**
   * `SortByDate` is a permutation, newest first, and keeps the page order of
   * titles with the same date and of all undated titles.
   */
  lemma SortByDateSpec(s: seq<Titre>)
    ensures multiset(SortByDate(s)) == multiset(s)
    ensures NewestFirst(SortByDate(s))
    ensures forall k :: WithKey(SortByDate(s), Rank, k) == WithKey(s, Rank, k)
  {
    SortDescSpec(s, Rank);
  }

  /** In a newest-first list, dated titles are in descending `(year, month, day)` order and undated ones come last. */
  lemma NewestFirstMeansDescendingDates(s: seq<Titre>, i: int, j: int)
    requires NewestFirst(s) && 0 <= i < j < |s|
    ensures IsDateShape(s[i].dateObtention) && IsDateShape(s[j].dateObtention) ==>
      !LaterDate(s[j].dateObtention, s[i].dateObtention)
    ensures !IsDateShape(s[i].dateObtention) ==> !IsDateShape(s[j].dateObtention)
  {
    if IsDateShape(s[i].dateObtention) && IsDateShape(s[j].dateObtention) {
      RankIsDateOrder(s[j], s[i]);
    }
  }

  /** One step of the in-place sort: moves `a[i]` left past the elements before it whose key is smaller. */
  method InsertInPlace<T>(a: array<T>, i: nat, key: T -> int)
    requires i < a.Length
    modifies a
    ensures a[..i + 1] == Insert(old(a[..i]), old(a[i]), key)
    ensures forall k :: i < k < a.Length ==> a[k] == old(a[k])
  {
    ghost var sorted := a[..i];
    var x := a[i];
    var j := i;
    while j > 0 && key(a[j - 1]) < key(x)
      invariant 0 <= j <= i
      invariant forall k :: 0 <= k < j ==> a[k] == sorted[k]
      invariant forall k :: j < k <= i ==> a[k] == sorted[k - 1]
      invariant forall k :: i < k < a.Length ==> a[k] == old(a[k])
      invariant forall k :: j <= k < i ==> key(sorted[k]) < key(x)
    {
      a[j] := a[j - 1];
      j := j - 1;
    }
    InsertPosUnique(sorted, x, key, j);
    a[j] := x;
    ghost var r := sorted[..j] + [x] + sorted[j..];
    assert |r| == i + 1;
    forall k | 0 <= k <= i ensures a[k] == r[k] {
      if k < j {
        assert r[k] == sorted[k];
      } else if k > j {
        assert r[k] == sorted[k - 1];
      }
    }
    assert a[..i + 1] == r;
  }

  /** `titres.sort(...)`, in place: the array ends up as `SortDesc` of what it held. */
  method SortInPlace<T>(a: array<T>, key: T -> int)
    modifies a
    ensures a[..] == SortDesc(old(a[..]), key)
  {
    ghost var input := a[..];
    for i := 0 to a.Length
      invariant a[..i] == SortDesc(input[..i], key)
      invariant a[i..] == input[i..]
    {
      assert input[..i + 1][..i] == input[..i];
      assert a[i] == input[i];
      InsertInPlace(a, i, key);
      assert a[i + 1..] == input[i + 1..];
    }
    assert input[..a.Length] == input;
  }
}
