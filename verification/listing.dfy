/** The part of `ls` that decides which entries are listed and in which
    order: collection through `lstat`, the three `qsort` comparators, and the
    in-place reversal for `-r`. */
module Listing {
  import opened Base
  import Numbers

  /** `struct file_info`: an entry name and what `lstat` reported for it. */
  datatype FileInfo = FileInfo(name: string, st: Stat)

  /** `struct ls_options`: the flags -t, -S, -r and -T. */
  datatype LsOptions = LsOptions(sortByTime: bool, sortBySize: bool, reverseSort: bool, showAllTimes: bool)

  datatype SortKey = ByName | ByTime | BySize

  /** The comparator `ls` hands to `qsort`: -t wins over -S, names otherwise. */
  function KeyOf(opts: LsOptions): SortKey {
    if opts.sortByTime then ByTime else if opts.sortBySize then BySize else ByName
  }

  // ---------------------------------------------------------------------
  // strcmp

  /** A C string holds no NUL before its end. */
  predicate NulFree(s: string) {
    forall i :: 0 <= i < |s| ==> s[i] != '\0'
  }

  /** `strcmp`: the difference of the first differing characters, where the
      end of the shorter string reads as NUL. */
  function Strcmp(a: string, b: string): int
    decreases |a|
  {
    if |a| == 0 && |b| == 0 then 0
    else if |a| == 0 then 0 - b[0] as int
    else if |b| == 0 then a[0] as int
    else if a[0] != b[0] then a[0] as int - b[0] as int
    else Strcmp(a[1..], b[1..])
  }

  /** Swapping the arguments negates the result. */
  lemma {:induction false} StrcmpSwap(a: string, b: string)
    ensures Strcmp(b, a) == -Strcmp(a, b)
    decreases |a|
  {
    if |a| > 0 && |b| > 0 && a[0] == b[0] {
      StrcmpSwap(a[1..], b[1..]);
    }
  }

  /** On C strings, `strcmp` reports equality exactly for equal strings. */
  lemma {:induction false} StrcmpZero(a: string, b: string)
    requires NulFree(a) && NulFree(b)
    ensures Strcmp(a, b) == 0 <==> a == b
    decreases |a|
  {
    if |a| > 0 && |b| > 0 {
      assert a[0] != '\0' && b[0] != '\0';
      if a[0] == b[0] {
        StrcmpZero(a[1..], b[1..]);
        assert a == [a[0]] + a[1..] && b == [b[0]] + b[1..];
      }
    } else if |a| > 0 {
      assert a[0] != '\0';
    } else if |b| > 0 {
      assert b[0] != '\0';
    }
  }

  /** On C strings, `strcmp` is transitive. */
  lemma {:induction false} StrcmpTransitive(a: string, b: string, c: string)
    requires NulFree(a) && NulFree(b) && NulFree(c)
    requires Strcmp(a, b) <= 0 && Strcmp(b, c) <= 0
    ensures Strcmp(a, c) <= 0
    decreases |a|
  {
    if |a| > 0 && |b| > 0 && |c| > 0 && a[0] == b[0] && b[0] == c[0] {
      StrcmpTransitive(a[1..], b[1..], c[1..]);
    } else if |a| > 0 {
      assert a[0] != '\0';
      if |b| > 0 { assert b[0] != '\0'; }
      if |c| > 0 { assert c[0] != '\0'; }
    } else if |b| > 0 {
      assert b[0] != '\0';
    }
  }

  // ---------------------------------------------------------------------
  // The comparators

  function Sign(v: int): int {
    if v < 0 then -1 else if v > 0 then 1 else 0
  }

  /** `compare_by_*` as the sort needs them: negative when `a` goes first.
      Time and size compare the sign of the 64-bit difference, newest and
      largest first. */
  function Compare(key: SortKey, a: FileInfo, b: FileInfo): int {
    match key
    case ByName => Strcmp(a.name, b.name)
    case ByTime => Sign(b.st.mtime - a.st.mtime)
    case BySize => Sign(b.st.size - a.st.size)
  }

  /** `a` may stand before `b` in the sorted listing. */
  predicate Before(key: SortKey, a: FileInfo, b: FileInfo) {
    Compare(key, a, b) <= 0
  }

  /** What each key orders by: names ascending, modification times and
      sizes descending. */
  lemma BeforeMeaning(key: SortKey, a: FileInfo, b: FileInfo)
    ensures key == ByTime ==> (Before(key, a, b) <==> a.st.mtime >= b.st.mtime)
    ensures key == BySize ==> (Before(key, a, b) <==> a.st.size >= b.st.size)
    ensures key == ByName && NulFree(a.name) && NulFree(b.name) ==>
      (Before(key, a, b) && Before(key, b, a) <==> a.name == b.name)
  {
    if key == ByName {
      StrcmpSwap(a.name, b.name);
      if NulFree(a.name) && NulFree(b.name) {
        StrcmpZero(a.name, b.name);
      }
    }
  }

  /** Any two entries are comparable. */
  lemma BeforeTotal(key: SortKey, a: FileInfo, b: FileInfo)
    ensures Before(key, a, b) || Before(key, b, a)
  {
    if key == ByName {
      StrcmpSwap(a.name, b.name);
    }
  }

  /** The entry names are C strings. */
  predicate NamesNulFree(s: seq<FileInfo>) {
    forall i :: 0 <= i < |s| ==> NulFree(s[i].name)
  }

  lemma BeforeTransitive(key: SortKey, a: FileInfo, b: FileInfo, c: FileInfo)
    requires NulFree(a.name) && NulFree(b.name) && NulFree(c.name)
    requires Before(key, a, b) && Before(key, b, c)
    ensures Before(key, a, c)
  {
    if key == ByName {
      StrcmpTransitive(a.name, b.name, c.name);
    }
  }

  /** The comparators as written: the 64-bit difference is returned as an
      `int`, which keeps its low 32 bits. */
  function CompareAsWritten(key: SortKey, a: FileInfo, b: FileInfo): int {
    match key
    case ByName => Strcmp(a.name, b.name)
    case ByTime => Numbers.ToInt32(b.st.mtime - a.st.mtime)
    case BySize => Numbers.ToInt32(b.st.size - a.st.size)
  }

  /** While the difference fits an `int`, the comparators as written decide
      exactly as the sign comparators do. */
  lemma AsWrittenAgreesWhenClose(key: SortKey, a: FileInfo, b: FileInfo)
    requires key == ByTime ==> -0x8000_0000 <= b.st.mtime - a.st.mtime < 0x8000_0000
    requires key == BySize ==> -0x8000_0000 <= b.st.size - a.st.size < 0x8000_0000
    ensures Sign(CompareAsWritten(key, a, b)) == Sign(Compare(key, a, b))
  {
    match key
    case ByName =>
    case ByTime => Numbers.ToInt32Small(b.st.mtime - a.st.mtime);
    case BySize => Numbers.ToInt32Small(b.st.size - a.st.size);
  }

  /** A 3 GiB file against an empty one: the truncated difference is
      negative, so `-S` puts the empty file first. */
  lemma SizeComparatorInverted()
    ensures var empty := FileInfo("a", Stat(S_IFREG, 0, 0));
            var big := FileInfo("b", Stat(S_IFREG, 0xC000_0000, 0));
            CompareAsWritten(BySize, empty, big) < 0 && !Before(BySize, empty, big)
  {
  }

  /** Two files 2^31 seconds apart: `-t` puts the older one first. */
  lemma TimeComparatorInverted()
    ensures var older := FileInfo("a", Stat(S_IFREG, 0, 0));
            var newer := FileInfo("b", Stat(S_IFREG, 0, 0x8000_0000));
            CompareAsWritten(ByTime, older, newer) < 0 && !Before(ByTime, older, newer)
  {
  }

  // ---------------------------------------------------------------------
  // Sorting

  /** Each entry may stand before the next one. */
  predicate Sorted(key: SortKey, s: seq<FileInfo>) {
    forall i :: 0 <= i < |s| - 1 ==> Before(key, s[i], s[i + 1])
  }

  /** Inserts `x` before the first entry it may stand before. */
  function Insert(key: SortKey, x: FileInfo, s: seq<FileInfo>): (r: seq<FileInfo>)
    ensures multiset(r) == multiset(s) + multiset{x}
    ensures |r| > 0 && (r[0] == x || (|s| > 0 && r[0] == s[0]))
  {
    if |s| == 0 then [x]
    else if Before(key, x, s[0]) then [x] + s
    else
      assert s == [s[0]] + s[1..];
      [s[0]] + Insert(key, x, s[1..])
  }

  lemma SortedTail(key: SortKey, s: seq<FileInfo>)
    requires Sorted(key, s) && |s| > 0
    ensures Sorted(key, s[1..])
  {
    forall k | 0 <= k < |s| - 2
      ensures Before(key, s[1..][k], s[1..][k + 1])
    {
      assert s[1..][k] == s[k + 1] && s[1..][k + 1] == s[k + 2];
    }
  }

  lemma SortedCons(key: SortKey, x: FileInfo, s: seq<FileInfo>)
    requires Sorted(key, s)
    requires |s| > 0 ==> Before(key, x, s[0])
    ensures Sorted(key, [x] + s)
  {
    var r := [x] + s;
    forall k | 0 <= k < |r| - 1
      ensures Before(key, r[k], r[k + 1])
    {
      if k > 0 {
        assert r[k] == s[k - 1] && r[k + 1] == s[k];
      }
    }
  }

  /** Inserting into a sorted sequence keeps it sorted. */
  lemma {:induction false} InsertSorted(key: SortKey, x: FileInfo, s: seq<FileInfo>)
    requires Sorted(key, s)
    ensures Sorted(key, Insert(key, x, s))
  {
    if |s| == 0 {
    } else if Before(key, x, s[0]) {
      SortedCons(key, x, s);
    } else {
      SortedTail(key, s);
      InsertSorted(key, x, s[1..]);
      BeforeTotal(key, x, s[0]);
      SortedCons(key, s[0], Insert(key, x, s[1..]));
    }
  }

  /** One order `qsort` may produce: a sorted permutation of the entries
      (entries that compare equal keep their directory order). */
  function SortBy(key: SortKey, s: seq<FileInfo>): (r: seq<FileInfo>)
    ensures multiset(r) == multiset(s)
    ensures Sorted(key, r)
  {
    if |s| == 0 then []
    else
      assert s == [s[0]] + s[1..];
      InsertSorted(key, s[0], SortBy(key, s[1..]));
      Insert(key, s[0], SortBy(key, s[1..]))
  }

  /** Adjacent order extends to every pair once names are C strings. */
  lemma {:induction false} SortedPairwise(key: SortKey, s: seq<FileInfo>, i: nat, j: nat)
    requires Sorted(key, s) && NamesNulFree(s)
    requires i <= j < |s|
    ensures Before(key, s[i], s[j])
    decreases j - i
  {
    if i == j {
      BeforeTotal(key, s[i], s[i]);
    } else {
      SortedPairwise(key, s, i + 1, j);
      BeforeTransitive(key, s[i], s[i + 1], s[j]);
    }
  }

  /** Permutations carry the same names. */
  lemma PermutationNulFree(s: seq<FileInfo>, t: seq<FileInfo>)
    requires multiset(s) == multiset(t) && NamesNulFree(s)
    ensures NamesNulFree(t)
  {
    forall k | 0 <= k < |t|
      ensures NulFree(t[k].name)
    {
      assert t[k] in multiset(t);
      var m :| 0 <= m < |s| && s[m] == t[k];
    }
  }

  /** The first entry of a permutation sits somewhere in the other. */
  lemma FirstIsMember(s: seq<FileInfo>, t: seq<FileInfo>) returns (i: nat)
    requires multiset(s) == multiset(t) && |t| > 0
    ensures i < |s| && s[i] == t[0]
  {
    assert t[0] in multiset(t);
    i :| 0 <= i < |s| && s[i] == t[0];
  }

  /** Directory entries have distinct names, so the name order leaves
      `qsort` no choice: two sorted permutations of them are equal. */
  lemma {:induction false} NameOrderUnique(s: seq<FileInfo>, t: seq<FileInfo>)
    requires multiset(s) == multiset(t)
    requires Sorted(ByName, s) && Sorted(ByName, t)
    requires NamesNulFree(s)
    requires forall i, j :: 0 <= i < j < |s| ==> s[i].name != s[j].name
    ensures s == t
    decreases |s|
  {
    assert |s| == |multiset(s)| == |multiset(t)| == |t|;
    if |s| > 0 {
      PermutationNulFree(s, t);
      var i := FirstIsMember(s, t);
      var j := FirstIsMember(t, s);
      SortedPairwise(ByName, s, 0, i);
      SortedPairwise(ByName, t, 0, j);
      BeforeMeaning(ByName, s[0], t[0]);
      assert i == 0;
      HeadTail(s, t);
      SortedTail(ByName, s);
      SortedTail(ByName, t);
      NameOrderUnique(s[1..], t[1..]);
    }
  }

  lemma HeadTail(s: seq<FileInfo>, t: seq<FileInfo>)
    requires multiset(s) == multiset(t) && |s| > 0 && |t| > 0 && s[0] == t[0]
    ensures multiset(s[1..]) == multiset(t[1..])
    ensures s == [s[0]] + s[1..] && t == [t[0]] + t[1..]
  {
    assert s == [s[0]] + s[1..] && t == [t[0]] + t[1..];
    assert multiset(s) == multiset{s[0]} + multiset(s[1..]);
    assert multiset(t) == multiset{t[0]} + multiset(t[1..]);
    assert multiset(s[1..]) == multiset(s) - multiset{s[0]};
    assert multiset(t[1..]) == multiset(t) - multiset{t[0]};
  }

  // ---------------------------------------------------------------------
  // Sorting with the comparators as written

  /** Inserts `x` before the first entry the truncating comparator does not
      put ahead of it. */
  function InsertAsWritten(key: SortKey, x: FileInfo, s: seq<FileInfo>): (r: seq<FileInfo>)
    ensures multiset(r) == multiset(s) + multiset{x}
  {
    if |s| == 0 then [x]
    else if CompareAsWritten(key, x, s[0]) <= 0 then [x] + s
    else
      assert s == [s[0]] + s[1..];
      [s[0]] + InsertAsWritten(key, x, s[1..])
  }

  /** `qsort` handed the comparators as written. They are no consistent
      order once a difference overflows an `int`, and then the C library
      promises no particular result; this is one order the sort may give. */
  function SortAsWritten(key: SortKey, s: seq<FileInfo>): (r: seq<FileInfo>)
    ensures multiset(r) == multiset(s)
  {
    if |s| == 0 then []
    else
      assert s == [s[0]] + s[1..];
      InsertAsWritten(key, s[0], SortAsWritten(key, s[1..]))
  }

  /** The difference the comparator of `key` computes for `a` and `b` fits an `int`. */
  predicate Close(key: SortKey, a: FileInfo, b: FileInfo) {
    && (key == ByTime ==> -0x8000_0000 <= b.st.mtime - a.st.mtime < 0x8000_0000)
    && (key == BySize ==> -0x8000_0000 <= b.st.size - a.st.size < 0x8000_0000)
  }

  predicate AllClose(key: SortKey, s: seq<FileInfo>) {
    forall a, b :: a in s && b in s ==> Close(key, a, b)
  }

  lemma {:induction false} InsertAgrees(key: SortKey, x: FileInfo, s: seq<FileInfo>)
    requires forall y :: y in s ==> Close(key, x, y)
    ensures InsertAsWritten(key, x, s) == Insert(key, x, s)
  {
    if |s| > 0 {
      assert s[0] in s;
      AsWrittenAgreesWhenClose(key, x, s[0]);
      assert forall y :: y in s[1..] ==> y in s;
      InsertAgrees(key, x, s[1..]);
    }
  }

  /** While every difference fits an `int`, the sort as written gives the
      order of the sign comparators. */
  lemma {:induction false} SortAgrees(key: SortKey, s: seq<FileInfo>)
    requires AllClose(key, s)
    ensures SortAsWritten(key, s) == SortBy(key, s)
  {
    if |s| > 0 {
      assert forall y :: y in s[1..] ==> y in s;
      SortAgrees(key, s[1..]);
      var rest := SortBy(key, s[1..]);
      forall y | y in rest
        ensures Close(key, s[0], y)
      {
        assert y in multiset(rest);
        assert y in s[1..];
      }
      InsertAgrees(key, s[0], rest);
    }
  }

  // ---------------------------------------------------------------------
  // Reversal

  function Reverse<T>(s: seq<T>): (r: seq<T>)
    ensures |r| == |s|
    ensures forall k :: 0 <= k < |s| ==> r[k] == s[|s| - 1 - k]
  {
    if |s| == 0 then [] else Reverse(s[1..]) + [s[0]]
  }

  /** The `-r` loop: swap the entries at `i` and `count - 1 - i` for every
      `i` below `count / 2`. */
  method ReverseInPlace<T>(files: seq<T>) returns (r: seq<T>)
    ensures r == Reverse(files)
  {
    r := files;
    var count := |r|;
    var i := 0;
    while i < count / 2
      invariant 0 <= i <= count / 2
      invariant |r| == count
      invariant forall k :: 0 <= k < i ==> r[k] == files[count - 1 - k]
      invariant forall k :: count - i <= k < count ==> r[k] == files[count - 1 - k]
      invariant forall k :: i <= k < count - i ==> r[k] == files[k]
    {
      var temp := r[i];
      r := r[i := r[count - 1 - i]][count - 1 - i := temp];
      i := i + 1;
    }
    assert forall k :: 0 <= k < count ==> r[k] == Reverse(files)[k];
  }

  /** A reversed sorted listing is sorted the other way round. */
  lemma ReverseSortedDescends(key: SortKey, s: seq<FileInfo>)
    requires Sorted(key, s)
    ensures forall i :: 0 <= i < |s| - 1 ==> Before(key, Reverse(s)[i + 1], Reverse(s)[i])
  {
    var r := Reverse(s);
    forall i | 0 <= i < |s| - 1
      ensures Before(key, r[i + 1], r[i])
    {
      assert r[i + 1] == s[|s| - 2 - i] && r[i] == s[|s| - 1 - i];
    }
  }

  // ---------------------------------------------------------------------
  // The listing

  /** The path `lstat` is given: `"%s/%s"` into a `MaxPathSize` buffer. */
  function EntryPath(dir: string, name: string): (p: string)
    ensures |p| <= MaxPathLen
    ensures IsPrefix(p, dir + "/" + name)
  {
    Truncate(dir + "/" + name, MaxPathLen)
  }

  /** The entries `readdir` returned whose `lstat` succeeded, in directory
      order, each with its `lstat` result. */
  function Collect(dir: string, names: seq<string>, lstat: string -> Option<Stat>): (r: seq<FileInfo>)
    ensures |r| <= |names|
    ensures forall e :: e in r ==> e.name in names && lstat(EntryPath(dir, e.name)) == Some(e.st)
    ensures forall n :: n in names && lstat(EntryPath(dir, n)).Some? ==>
      FileInfo(n, lstat(EntryPath(dir, n)).value) in r
    ensures (forall i, j :: 0 <= i < j < |names| ==> names[i] != names[j]) ==>
      forall i, j :: 0 <= i < j < |r| ==> r[i].name != r[j].name
  {
    if |names| == 0 then []
    else
      var init := Collect(dir, names[..|names| - 1], lstat);
      var n := names[|names| - 1];
      assert names == names[..|names| - 1] + [n];
      match lstat(EntryPath(dir, n))
      case None => init
      case Some(st) =>
        assert (forall i, j :: 0 <= i < j < |names| ==> names[i] != names[j]) ==>
          forall e :: e in init ==> e.name != n;
        init + [FileInfo(n, st)]
  }

  /** The order `ls` prints its entries in: sorted with the comparators as
      written, or with the sign comparators when `asWritten` is false. */
  function ListOrder(asWritten: bool, opts: LsOptions, entries: seq<FileInfo>): seq<FileInfo> {
    var sorted := if asWritten then SortAsWritten(KeyOf(opts), entries) else SortBy(KeyOf(opts), entries);
    if opts.reverseSort then Reverse(sorted) else sorted
  }

  /** `call_ls` up to printing: the entries whose `lstat` succeeded, in
      the order the options select. */
  function Ls(asWritten: bool, dir: string, names: seq<string>, lstat: string -> Option<Stat>, opts: LsOptions): seq<FileInfo> {
    ListOrder(asWritten, opts, Collect(dir, names, lstat))
  }

  /** The listing is a permutation of the collected entries. It is sorted by
      the selected key, and descending instead when -r is given, with the
      sign comparators always and with the comparators as written whenever
      every difference they compute fits an `int`. */
  lemma LsOrder(asWritten: bool, dir: string, names: seq<string>, lstat: string -> Option<Stat>, opts: LsOptions)
    ensures multiset(Ls(asWritten, dir, names, lstat, opts)) == multiset(Collect(dir, names, lstat))
    ensures (!asWritten || AllClose(KeyOf(opts), Collect(dir, names, lstat))) && !opts.reverseSort ==>
      Sorted(KeyOf(opts), Ls(asWritten, dir, names, lstat, opts))
    ensures (!asWritten || AllClose(KeyOf(opts), Collect(dir, names, lstat))) && opts.reverseSort ==>
      forall i :: 0 <= i < |Ls(asWritten, dir, names, lstat, opts)| - 1 ==>
        Before(KeyOf(opts), Ls(asWritten, dir, names, lstat, opts)[i + 1], Ls(asWritten, dir, names, lstat, opts)[i])
  {
    var entries := Collect(dir, names, lstat);
    var key := KeyOf(opts);
    var sorted := if asWritten then SortAsWritten(key, entries) else SortBy(key, entries);
    if asWritten && AllClose(key, entries) {
      SortAgrees(key, entries);
    }
    if opts.reverseSort {
      ReverseMultiset(sorted);
      if !asWritten || AllClose(key, entries) {
        ReverseSortedDescends(key, sorted);
      }
    }
  }

  /** `ls -S` as written lists an empty file before a 3 GiB one, in either
      directory order; the sign comparators list the large file first. */
  lemma LsSizeInverted()
    ensures var empty := FileInfo("a", Stat(S_IFREG, 0, 0));
            var big := FileInfo("b", Stat(S_IFREG, 0xC000_0000, 0));
            var bySize := LsOptions(false, true, false, false);
            && ListOrder(true, bySize, [big, empty]) == [empty, big]
            && ListOrder(true, bySize, [empty, big]) == [empty, big]
            && ListOrder(false, bySize, [empty, big]) == [big, empty]
  {
    var empty := FileInfo("a", Stat(S_IFREG, 0, 0));
    var big := FileInfo("b", Stat(S_IFREG, 0xC000_0000, 0));
    assert [big, empty][1..] == [empty] && [empty, big][1..] == [big];
    assert SortAsWritten(BySize, [empty]) == [empty] && SortAsWritten(BySize, [big]) == [big];
    assert SortBy(BySize, [big]) == [big];
  }

  lemma {:induction false} ReverseMultiset<T>(s: seq<T>)
    ensures multiset(Reverse(s)) == multiset(s)
  {
    if |s| > 0 {
      ReverseMultiset(s[1..]);
      assert s == [s[0]] + s[1..];
      assert Reverse(s) == Reverse(s[1..]) + [s[0]];
    }
  }

  /** With -t, -S makes no difference. */
  lemma TimeTakesPrecedence(asWritten: bool, opts: LsOptions, entries: seq<FileInfo>)
    requires opts.sortByTime
    ensures ListOrder(asWritten, opts, entries) == ListOrder(asWritten, opts.(sortBySize := !opts.sortBySize), entries)
  {
  }

  /** -r lists exactly the entries of the listing without it, last first. */
  lemma ReverseFlag(asWritten: bool, opts: LsOptions, entries: seq<FileInfo>)
    ensures var plain := ListOrder(asWritten, opts.(reverseSort := false), entries);
            var reversed := ListOrder(asWritten, opts.(reverseSort := true), entries);
            |reversed| == |plain| &&
            forall k :: 0 <= k < |plain| ==> reversed[k] == plain[|plain| - 1 - k]
  {
  }
}
