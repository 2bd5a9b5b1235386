/** Clustering identifiers by common prefix. */
module Patterns {
  import opened Seqs
  import StringOrder

  // ---- Common prefixes ----

  predicate IsPrefix(p: string, s: string) {
    p <= s
  }

  function CommonPrefix(a: string, b: string): (p: string)
    ensures IsPrefix(p, a) && IsPrefix(p, b)
    ensures forall q :: IsPrefix(q, a) && IsPrefix(q, b) ==> IsPrefix(q, p)
  {
    if a == "" || b == "" || a[0] != b[0] then ""
    else
      var rest := CommonPrefix(a[1..], b[1..]);
      PrefixTails(a);
      PrefixTails(b);
      [a[0]] + rest
  }

  lemma PrefixTails(a: string)
    requires a != ""
    ensures forall q :: IsPrefix(q, a) && q != "" ==> IsPrefix(q[1..], a[1..]) && q == [q[0]] + q[1..] && q[0] == a[0]
  {
  }

  /** `common_string_prefix_str`: no result rather than an empty one. */
  function CommonStringPrefix(a: string, b: string): (p: Option<string>)
    ensures p.None? <==> a == "" || b == "" || a[0] != b[0]
  {
    var prefix := CommonPrefix(a, b);
    assert a != "" && b != "" && a[0] == b[0] ==> IsPrefix(a[..1], a) && IsPrefix(a[..1], b);
    if prefix == "" then None else Some(prefix)
  }

  function Reverse(s: string): (r: string)
    ensures |r| == |s| && forall i :: 0 <= i < |s| ==> r[i] == s[|s| - 1 - i]
  {
    seq(|s|, i requires 0 <= i < |s| => s[|s| - 1 - i])
  }

  ghost predicate IsSuffix(q: string, s: string) {
    |q| <= |s| && q == s[|s| - |q|..]
  }

  /** `common_string_suffix`. */
  function CommonStringSuffix(a: string, b: string): Option<string> {
    var p := CommonStringPrefix(Reverse(a), Reverse(b));
    if p.None? then None else Some(Reverse(p.value))
  }

  /** The suffix is common and no common suffix is longer. */
  lemma SuffixIsLongest(a: string, b: string, q: string)
    requires IsSuffix(q, a) && IsSuffix(q, b) && q != ""
    ensures CommonStringSuffix(a, b).Some?
    ensures var s := CommonStringSuffix(a, b).value; IsSuffix(s, a) && IsSuffix(s, b) && IsSuffix(q, s)
  {
    var p := CommonPrefix(Reverse(a), Reverse(b));
    ReversedSuffix(q, a);
    ReversedSuffix(q, b);
    assert IsPrefix(Reverse(q), p);
    ReversedPrefix(p, a);
    ReversedPrefix(p, b);
    ReversedTwice(p);
    ReversedPrefix(Reverse(q), Reverse(p));
    ReversedTwice(q);
  }

  lemma ReversedSuffix(q: string, s: string)
    requires IsSuffix(q, s)
    ensures IsPrefix(Reverse(q), Reverse(s))
  {
    assert Reverse(q) == Reverse(s)[..|q|];
  }

  lemma ReversedPrefix(p: string, s: string)
    requires IsPrefix(p, Reverse(s))
    ensures IsSuffix(Reverse(p), s)
  {
    assert Reverse(p) == s[|s| - |p|..];
  }

  lemma ReversedTwice(s: string)
    ensures Reverse(Reverse(s)) == s
  {
  }

  // ---- Groups ----

  /** The identifiers beginning with `c`, in order. */
  function Group(ids: seq<string>, c: char): seq<string> {
    if ids == [] then [] else
      var last := ids[|ids| - 1];
      Group(ids[..|ids| - 1], c) + if last != "" && last[0] == c then [last] else []
  }

  function LongestCommonPrefix(group: seq<string>): string
    requires group != []
  {
    if |group| == 1 then group[0]
    else CommonPrefix(group[|group| - 1], LongestCommonPrefix(group[..|group| - 1]))
  }

  ghost predicate IsLongest(p: string, group: seq<string>) {
    PrefixOfAll(p, group) && forall q :: PrefixOfAll(q, group) ==> IsPrefix(q, p)
  }

  ghost predicate PrefixOfAll(p: string, group: seq<string>) {
    forall s :: s in group ==> IsPrefix(p, s)
  }

  lemma {:induction false} LongestCommonPrefixIsLongest(group: seq<string>)
    requires group != []
    ensures IsLongest(LongestCommonPrefix(group), group)
  {
    var init, last := group[..|group| - 1], group[|group| - 1];
    assert group == init + [last];
    if |group| > 1 {
      LongestCommonPrefixIsLongest(init);
      LongestOfOneMore(LongestCommonPrefix(init), init, last);
    } else {
      assert forall s :: s in group <==> s == group[0];
    }
  }

  lemma LongestOfOneMore(p: string, group: seq<string>, value: string)
    requires IsLongest(p, group)
    ensures IsLongest(CommonPrefix(value, p), group + [value])
  {
    var r := CommonPrefix(value, p);
    forall s | s in group + [value] ensures IsPrefix(r, s) {
      if s in group { assert IsPrefix(r, p) && IsPrefix(p, s); }
    }
    forall q | PrefixOfAll(q, group + [value]) ensures IsPrefix(q, r) {
      assert value in group + [value];
      assert forall s :: s in group ==> s in group + [value];
      assert PrefixOfAll(q, group);
    }
  }

  lemma LongestIsUnique(p: string, q: string, a: seq<string>, b: seq<string>)
    requires IsLongest(p, a) && IsLongest(q, b) && forall s :: s in a <==> s in b
    ensures p == q
  {
    assert PrefixOfAll(p, b) && PrefixOfAll(q, a);
    assert IsPrefix(p, q) && IsPrefix(q, p);
  }

  lemma {:induction false} GroupMembers(ids: seq<string>, c: char)
    ensures forall s :: s in Group(ids, c) <==> s in ids && s != "" && s[0] == c
  {
    if ids != [] {
      GroupMembers(ids[..|ids| - 1], c);
      assert ids == ids[..|ids| - 1] + [ids[|ids| - 1]];
    }
  }

  // ---- What the clustering computes ----

  function Heads(ids: seq<string>): set<char> {
    set s | s in ids && s != "" :: s[0]
  }

  /** How often the empty identifier occurs. */
  function Empties(ids: seq<string>): nat {
    if ids == [] then 0 else Empties(ids[..|ids| - 1]) + if ids[|ids| - 1] == "" then 1 else 0
  }

  function GroupsOfOne(ids: seq<string>): set<char> {
    set c | c in Heads(ids) && |Group(ids, c)| == 1
  }

  /** One entry for each first character shared by several identifiers; the rest occur one time. */
  ghost predicate Summarises(ids: seq<string>, oneTime: nat, prefix: map<string, nat>) {
    && oneTime == |GroupsOfOne(ids)| + (if Empties(ids) > 0 then 1 else 0)
    && (forall p :: p in prefix ==> p != "" && |Group(ids, p[0])| >= 2 && IsLongest(p, Group(ids, p[0]))
                                    && prefix[p] == |Group(ids, p[0])|)
    && (forall c :: c in Heads(ids) && |Group(ids, c)| >= 2 ==> LongestCommonPrefix(Group(ids, c)) in prefix)
  }

  /** The order of the identifiers does not matter. */
  lemma OrderDoesNotMatter(a: seq<string>, b: seq<string>, oneTime: nat, prefix: map<string, nat>)
    requires multiset(a) == multiset(b)
    ensures Summarises(a, oneTime, prefix) <==> Summarises(b, oneTime, prefix)
  {
    if Summarises(a, oneTime, prefix) { OrderOneWay(a, b, oneTime, prefix); }
    if Summarises(b, oneTime, prefix) { OrderOneWay(b, a, oneTime, prefix); }
  }

  lemma OrderOneWay(a: seq<string>, b: seq<string>, oneTime: nat, prefix: map<string, nat>)
    requires multiset(a) == multiset(b) && Summarises(a, oneTime, prefix)
    ensures Summarises(b, oneTime, prefix)
  {
    forall s ensures s in a <==> s in b {
      assert s in multiset(a) <==> s in multiset(b);
    }
    assert Heads(a) == Heads(b);
    forall c ensures |Group(a, c)| == |Group(b, c)| && forall s :: s in Group(a, c) <==> s in Group(b, c) {
      SameGroups(a, b, c);
    }
    assert GroupsOfOne(a) == GroupsOfOne(b);
    EmptiesCount(a);
    EmptiesCount(b);
    forall p | p in prefix ensures IsLongest(p, Group(b, p[0])) {
      assert forall q :: PrefixOfAll(q, Group(a, p[0])) <==> PrefixOfAll(q, Group(b, p[0]));
    }
    forall c | c in Heads(b) && |Group(b, c)| >= 2 ensures LongestCommonPrefix(Group(b, c)) in prefix {
      LongestCommonPrefixIsLongest(Group(a, c));
      LongestCommonPrefixIsLongest(Group(b, c));
      LongestIsUnique(LongestCommonPrefix(Group(a, c)), LongestCommonPrefix(Group(b, c)), Group(a, c), Group(b, c));
    }
  }

  lemma {:induction false} EmptiesCount(ids: seq<string>)
    ensures Empties(ids) == multiset(ids)[""]
  {
    if ids != [] {
      EmptiesCount(ids[..|ids| - 1]);
      assert ids == ids[..|ids| - 1] + [ids[|ids| - 1]];
    }
  }

  lemma {:induction false} GroupCounts(ids: seq<string>, c: char, s: string)
    ensures multiset(Group(ids, c))[s] == if s != "" && s[0] == c then multiset(ids)[s] else 0
  {
    if ids != [] {
      GroupCounts(ids[..|ids| - 1], c, s);
      assert ids == ids[..|ids| - 1] + [ids[|ids| - 1]];
    }
  }

  lemma SameGroups(a: seq<string>, b: seq<string>, c: char)
    requires multiset(a) == multiset(b)
    ensures |Group(a, c)| == |Group(b, c)| && forall s :: s in Group(a, c) <==> s in Group(b, c)
  {
    forall s ensures multiset(Group(a, c))[s] == multiset(Group(b, c))[s] {
      GroupCounts(a, c, s);
      GroupCounts(b, c, s);
    }
    assert multiset(Group(a, c)) == multiset(Group(b, c));
    assert |multiset(Group(a, c))| == |Group(a, c)| && |multiset(Group(b, c))| == |Group(b, c)|;
    forall s ensures s in Group(a, c) <==> s in Group(b, c) {
      assert s in multiset(Group(a, c)) <==> s in multiset(Group(b, c));
    }
  }

  // ---- The ordered map of prefixes and counts ----

  datatype Entry = Entry(prefix: string, count: nat)

  /** `IndexMap::insert`: an existing key keeps its place. */
  function InsertEntry(entries: seq<Entry>, prefix: string, count: nat): seq<Entry> {
    if entries == [] then [Entry(prefix, count)]
    else if entries[0].prefix == prefix then [Entry(prefix, count)] + entries[1..]
    else [entries[0]] + InsertEntry(entries[1..], prefix, count)
  }

  lemma {:induction false} InsertNew(entries: seq<Entry>, prefix: string, count: nat)
    requires forall e :: e in entries ==> e.prefix != prefix
    ensures InsertEntry(entries, prefix, count) == entries + [Entry(prefix, count)]
  {
    if entries != [] {
      assert entries[0] in entries;
      InsertNew(entries[1..], prefix, count);
    }
  }

  lemma {:induction false} InsertExisting(entries: seq<Entry>, i: nat, count: nat)
    requires i < |entries| && forall j :: 0 <= j < i ==> entries[j].prefix != entries[i].prefix
    ensures InsertEntry(entries, entries[i].prefix, count) == entries[i := Entry(entries[i].prefix, count)]
    decreases i
  {
    if i > 0 {
      InsertExisting(entries[1..], i - 1, count);
      var changed := Entry(entries[i].prefix, count);
      assert entries[i := changed] == [entries[0]] + entries[1..][i - 1 := changed];
    } else {
      assert entries[0 := Entry(entries[0].prefix, count)] == [Entry(entries[0].prefix, count)] + entries[1..];
    }
  }

  predicate SameHead(a: string, b: string) {
    (a == "" && b == "") || (a != "" && b != "" && a[0] == b[0])
  }

  /** The entry stands for the identifiers seen that begin like it. */
  ghost predicate EntryFor(e: Entry, seen: seq<string>) {
    if e.prefix == "" then e.count == 1 && Empties(seen) > 0
    else
      var group := Group(seen, e.prefix[0]);
      group != [] && e.count == |group| && IsLongest(e.prefix, group)
  }

  ghost predicate HasEntry(entries: seq<Entry>, value: string) {
    exists i :: 0 <= i < |entries| && SameHead(entries[i].prefix, value)
  }

  ghost predicate DistinctHeads(entries: seq<Entry>) {
    forall i, j :: 0 <= i < j < |entries| ==> !SameHead(entries[i].prefix, entries[j].prefix)
  }

  ghost predicate Clustered(entries: seq<Entry>, seen: seq<string>) {
    && DistinctHeads(entries)
    && (forall e :: e in entries ==> EntryFor(e, seen))
    && (forall s :: s in seen ==> HasEntry(entries, s))
    && SumCounts(entries) + Max(Empties(seen) - 1, 0) == |seen|
  }

  function SumCounts(entries: seq<Entry>): nat {
    if entries == [] then 0 else entries[0].count + SumCounts(entries[1..])
  }

  lemma {:induction false} SumConcat(a: seq<Entry>, b: seq<Entry>)
    ensures SumCounts(a + b) == SumCounts(a) + SumCounts(b)
  {
    if a == [] {
      assert a + b == b;
    } else {
      assert (a + b)[1..] == a[1..] + b;
      SumConcat(a[1..], b);
    }
  }

  lemma GroupOfOneMore(seen: seq<string>, value: string, c: char)
    ensures Group(seen + [value], c) == Group(seen, c) + if value != "" && value[0] == c then [value] else []
    ensures Empties(seen + [value]) == Empties(seen) + if value == "" then 1 else 0
  {
    assert (seen + [value])[..|seen|] == seen;
  }

  /** Entries that begin differently are not touched by a new value. */
  lemma EntryForKept(e: Entry, seen: seq<string>, value: string)
    requires EntryFor(e, seen) && !(e.prefix != "" && value != "" && e.prefix[0] == value[0])
    ensures EntryFor(e, seen + [value])
  {
    if e.prefix != "" { GroupOfOneMore(seen, value, e.prefix[0]); } else { GroupOfOneMore(seen, value, 'a'); }
  }

  /** The value joins the group of the entry at `j`: its prefix shrinks to what they share. */
  lemma JoinsEntry(entries: seq<Entry>, seen: seq<string>, j: nat, value: string, result: seq<Entry>)
    requires Clustered(entries, seen) && j < |entries|
    requires value != "" && entries[j].prefix != "" && value[0] == entries[j].prefix[0]
    requires var e := Entry(CommonPrefix(value, entries[j].prefix), entries[j].count + 1);
             result == entries[j := e] || result == RemoveAt(entries, j) + [e]
    ensures Clustered(result, seen + [value])
  {
    var e := Entry(CommonPrefix(value, entries[j].prefix), entries[j].count + 1);
    JoinedEntryFor(entries[j], seen, value);
    forall x | x in result ensures EntryFor(x, seen + [value]) {
      if x != e { OtherEntryFor(entries, j, x, seen, value); }
    }
    forall s | s in seen + [value] ensures HasEntry(result, s) {
      JoinedHasEntry(entries, j, e, result, s);
    }
    GroupOfOneMore(seen, value, value[0]);
    JoinedSum(entries, j, e, result);
    JoinedHeadsDistinct(entries, j, e, result);
  }

  lemma JoinedEntryFor(former: Entry, seen: seq<string>, value: string)
    requires EntryFor(former, seen) && value != "" && former.prefix != "" && value[0] == former.prefix[0]
    ensures var e := Entry(CommonPrefix(value, former.prefix), former.count + 1);
            SameHead(e.prefix, value) && SameHead(e.prefix, former.prefix) && EntryFor(e, seen + [value])
  {
    var p := CommonPrefix(value, former.prefix);
    assert IsPrefix(value[..1], value) && IsPrefix(value[..1], former.prefix) && IsPrefix(value[..1], p);
    GroupOfOneMore(seen, value, value[0]);
    LongestOfOneMore(former.prefix, Group(seen, value[0]), value);
  }

  lemma OtherEntryFor(entries: seq<Entry>, j: nat, x: Entry, seen: seq<string>, value: string)
    requires DistinctHeads(entries) && (forall e :: e in entries ==> EntryFor(e, seen))
    requires j < |entries| && SameHead(entries[j].prefix, value)
    requires x in entries[..j] + entries[j + 1..]
    ensures EntryFor(x, seen + [value])
  {
    var i :| 0 <= i < |entries| && i != j && entries[i] == x;
    assert !SameHead(entries[if i < j then i else j].prefix, entries[if i < j then j else i].prefix);
    EntryForKept(x, seen, value);
  }

  lemma JoinedHasEntry(entries: seq<Entry>, j: nat, e: Entry, result: seq<Entry>, s: string)
    requires j < |entries| && SameHead(e.prefix, entries[j].prefix)
    requires result == entries[j := e] || result == RemoveAt(entries, j) + [e]
    requires HasEntry(entries, s) || SameHead(e.prefix, s)
    ensures HasEntry(result, s)
  {
    var inPlace := result == entries[j := e];
    var at := if inPlace then j else |entries| - 1;
    assert result[at] == e;
    if !SameHead(e.prefix, s) {
      var i :| 0 <= i < |entries| && SameHead(entries[i].prefix, s);
      assert result[if inPlace || i < j then i else i - 1] == entries[i];
    }
  }

  lemma SumSplit(entries: seq<Entry>, j: nat)
    requires j < |entries|
    ensures SumCounts(entries) == SumCounts(entries[..j]) + entries[j].count + SumCounts(entries[j + 1..])
  {
    assert entries == entries[..j] + entries[j..];
    assert entries[j..][1..] == entries[j + 1..];
    SumConcat(entries[..j], entries[j..]);
  }

  lemma JoinedSum(entries: seq<Entry>, j: nat, e: Entry, result: seq<Entry>)
    requires j < |entries| && (result == entries[j := e] || result == RemoveAt(entries, j) + [e])
    ensures SumCounts(result) == SumCounts(entries) - entries[j].count + e.count
  {
    SumSplit(entries, j);
    if result == entries[j := e] {
      SumSplit(result, j);
      assert result[..j] == entries[..j] && result[j + 1..] == entries[j + 1..];
    } else {
      SumConcat(RemoveAt(entries, j), [e]);
      SumConcat(entries[..j], entries[j + 1..]);
    }
  }

  lemma JoinedHeadsDistinct(entries: seq<Entry>, j: nat, e: Entry, result: seq<Entry>)
    requires DistinctHeads(entries) && j < |entries| && SameHead(e.prefix, entries[j].prefix)
    requires result == entries[j := e] || result == RemoveAt(entries, j) + [e]
    ensures DistinctHeads(result)
  {
    forall a, b | 0 <= a < b < |result| ensures !SameHead(result[a].prefix, result[b].prefix) {
      if result != entries[j := e] {
        var i := if a < j then a else a + 1;
        if b < |entries| - 1 {
          assert result[a] == entries[i] && result[b] == entries[if b < j then b else b + 1];
        } else {
          assert result[a] == entries[i] && result[b] == e;
        }
      }
    }
  }

  lemma GroupHasEntry(entries: seq<Entry>, seen: seq<string>, value: string)
    requires forall s :: s in seen ==> HasEntry(entries, s)
    ensures value != "" && Group(seen, value[0]) != [] ==> HasEntry(entries, value)
    ensures value == "" && Empties(seen) > 0 ==> HasEntry(entries, value)
  {
    EmptiesCount(seen);
    if value != "" && Group(seen, value[0]) != [] {
      var s := Group(seen, value[0])[0];
      GroupMembers(seen, value[0]);
      assert s in Group(seen, value[0]);
      var i :| 0 <= i < |entries| && SameHead(entries[i].prefix, s);
      assert SameHead(entries[i].prefix, value);
    }
  }

  /** A value that begins like no entry gets one of its own. */
  lemma NewEntry(entries: seq<Entry>, seen: seq<string>, value: string)
    requires Clustered(entries, seen) && value != "" && !HasEntry(entries, value)
    ensures Clustered(InsertEntry(entries, value, 1), seen + [value])
  {
    forall e | e in entries ensures e.prefix != value && EntryFor(e, seen + [value]) {
      var i :| 0 <= i < |entries| && entries[i] == e;
      assert !SameHead(entries[i].prefix, value);
      EntryForKept(e, seen, value);
    }
    InsertNew(entries, value, 1);
    GroupOfOneMore(seen, value, value[0]);
    GroupHasEntry(entries, seen, value);
    assert forall s :: s in Group(seen, value[0]) + [value] <==> s == value;
    AppendedEntry(entries, seen, value);
  }

  /** The empty identifier keeps the entry it has, or gets one. */
  lemma EmptyEntry(entries: seq<Entry>, seen: seq<string>)
    requires Clustered(entries, seen)
    ensures Clustered(InsertEntry(entries, "", 1), seen + [""])
  {
    GroupOfOneMore(seen, "", 'a');
    forall e | e in entries ensures EntryFor(e, seen + [""]) {
      EntryForKept(e, seen, "");
    }
    if i :| 0 <= i < |entries| && entries[i].prefix == "" {
      forall j | 0 <= j < i ensures entries[j].prefix != "" {
        assert !SameHead(entries[j].prefix, entries[i].prefix);
      }
      InsertExisting(entries, i, 1);
      assert entries[i] in entries;
      assert entries[i := Entry("", 1)] == entries;
      assert SameHead(entries[i].prefix, "");
    } else {
      GroupHasEntry(entries, seen, "");
      InsertNew(entries, "", 1);
      AppendedEntry(entries, seen, "");
    }
  }

  lemma AppendedEntry(entries: seq<Entry>, seen: seq<string>, value: string)
    requires Clustered(entries, seen) && !HasEntry(entries, value)
    requires forall e :: e in entries ==> EntryFor(e, seen + [value])
    requires EntryFor(Entry(value, 1), seen + [value]) && (value == "" ==> Empties(seen) == 0)
    ensures Clustered(entries + [Entry(value, 1)], seen + [value])
  {
    GroupOfOneMore(seen, value, 'a');
    AppendedCounts(entries, value);
    AppendedHeads(entries, value);
    forall s | s in seen + [value] ensures HasEntry(entries + [Entry(value, 1)], s) {
      AppendedHas(entries, value, s);
    }
  }

  lemma AppendedCounts(entries: seq<Entry>, value: string)
    ensures SumCounts(entries + [Entry(value, 1)]) == SumCounts(entries) + 1
  {
    SumConcat(entries, [Entry(value, 1)]);
    assert [Entry(value, 1)][1..] == [];
  }

  lemma AppendedHas(entries: seq<Entry>, value: string, s: string)
    requires HasEntry(entries, s) || s == value
    ensures HasEntry(entries + [Entry(value, 1)], s)
  {
    var result := entries + [Entry(value, 1)];
    if HasEntry(entries, s) {
      var i :| 0 <= i < |entries| && SameHead(entries[i].prefix, s);
      assert result[i] == entries[i];
    } else {
      assert SameHead(result[|entries|].prefix, s);
    }
  }

  lemma AppendedHeads(entries: seq<Entry>, value: string)
    requires DistinctHeads(entries) && !HasEntry(entries, value)
    ensures DistinctHeads(entries + [Entry(value, 1)])
  {
    var result := entries + [Entry(value, 1)];
    forall i, j | 0 <= i < j < |result| ensures !SameHead(result[i].prefix, result[j].prefix) {
      if j == |entries| { assert !SameHead(entries[i].prefix, value); }
    }
  }

  // ---- The clustering itself ----

  /** Finds the entry that shares a prefix with the value, if any, and updates the map. */
  method PlaceValue(entries: seq<Entry>, value: string, ghost seen: seq<string>) returns (placed: seq<Entry>)
    requires Clustered(entries, seen)
    ensures Clustered(placed, seen + [value])
  {
    for j := 0 to |entries|
      invariant forall k :: 0 <= k < j ==> CommonStringPrefix(value, entries[k].prefix).None?
    {
      var cp, count := entries[j].prefix, entries[j].count;
      var common := CommonStringPrefix(value, cp);
      if common.None? {
        continue;
      }
      var commonStr := common.value;
      assert commonStr == CommonPrefix(value, cp) && IsPrefix(commonStr, cp);
      JoinedKeys(entries, j, commonStr);
      if commonStr == cp || cp <= commonStr {
        InsertExisting(entries, j, count + 1);
        placed := InsertEntry(entries, cp, count + 1);
      } else {
        InsertNew(RemoveAt(entries, j), commonStr, count + 1);
        placed := InsertEntry(RemoveAt(entries, j), commonStr, count + 1);
      }
      JoinsEntry(entries, seen, j, value, placed);
      return;
    }
    if value == "" { EmptyEntry(entries, seen); } else { NewEntry(entries, seen, value); }
    placed := InsertEntry(entries, value, 1);
  }

  lemma JoinedKeys(entries: seq<Entry>, j: nat, common: string)
    requires DistinctHeads(entries) && j < |entries| && SameHead(common, entries[j].prefix)
    ensures forall k :: 0 <= k < j ==> entries[k].prefix != entries[j].prefix
    ensures forall e :: e in RemoveAt(entries, j) ==> e.prefix != common
  {
    forall k | 0 <= k < |entries| && k != j
      ensures entries[k].prefix != common && entries[k].prefix != entries[j].prefix
    {
      assert !SameHead(entries[if k < j then k else j].prefix, entries[if k < j then j else k].prefix);
    }
  }

  ghost function SumValues(m: map<string, nat>): nat
    decreases |m|
  {
    if m == map[] then 0 else
      var k :| k in m;
      assert |m - {k}| < |m| by { assert (m - {k}).Keys == m.Keys - {k}; }
      m[k] + SumValues(m - {k})
  }

  lemma {:induction false} SumValuesWithout(m: map<string, nat>, k: string)
    requires k in m
    ensures SumValues(m) == m[k] + SumValues(m - {k})
    decreases |m|
  {
    var x :| x in m && SumValues(m) == m[x] + SumValues(m - {x});
    if x != k {
      assert (m - {x}).Keys == m.Keys - {x} && (m - {k}).Keys == m.Keys - {k};
      SumValuesWithout(m - {x}, k);
      SumValuesWithout(m - {k}, x);
      assert m - {x} - {k} == m - {k} - {x};
    }
  }

  lemma SumValuesWith(m: map<string, nat>, k: string, v: nat)
    requires k !in m
    ensures SumValues(m[k := v]) == SumValues(m) + v
  {
    SumValuesWithout(m[k := v], k);
    assert m[k := v] - {k} == m;
  }

  function SingleHeads(entries: seq<Entry>): set<char> {
    set e | e in entries && e.prefix != "" && e.count == 1 :: e.prefix[0]
  }

  predicate HasEmptyEntry(entries: seq<Entry>) {
    exists e | e in entries :: e.prefix == ""
  }

  lemma SumOneMore(entries: seq<Entry>, i: nat)
    requires i < |entries|
    ensures SumCounts(entries[..i + 1]) == SumCounts(entries[..i]) + entries[i].count
  {
    assert entries[..i + 1] == entries[..i] + [entries[i]];
    SumConcat(entries[..i], [entries[i]]);
  }

  /** What one more entry adds to the heads that occur one time. */
  lemma OneMoreHead(before: seq<Entry>, e: Entry)
    requires forall x :: x in before ==> !SameHead(x.prefix, e.prefix)
    ensures |SingleHeads(before + [e])| == |SingleHeads(before)| + (if e.prefix != "" && e.count == 1 then 1 else 0)
    ensures HasEmptyEntry(before + [e]) <==> HasEmptyEntry(before) || e.prefix == ""
    ensures e.prefix == "" ==> !HasEmptyEntry(before)
  {
    var after := before + [e];
    forall x ensures x in after <==> x in before || x == e {
    }
    if e.prefix != "" && e.count == 1 {
      assert SingleHeads(after) == SingleHeads(before) + {e.prefix[0]};
      assert e.prefix[0] !in SingleHeads(before);
    } else {
      assert SingleHeads(after) == SingleHeads(before);
    }
  }

  lemma EarlierHeadsDiffer(entries: seq<Entry>, i: nat)
    requires DistinctHeads(entries) && i < |entries|
    ensures forall x :: x in entries[..i] ==> !SameHead(x.prefix, entries[i].prefix)
    ensures entries[..i + 1] == entries[..i] + [entries[i]]
  {
    forall x | x in entries[..i] ensures !SameHead(x.prefix, entries[i].prefix) {
      var k :| 0 <= k < i && entries[k] == x;
    }
  }

  /** The map holds exactly the entries counted more than once. */
  ghost predicate Retained(entries: seq<Entry>, prefix: map<string, nat>) {
    && (forall p :: p in prefix ==> RetainedFrom(entries, p))
    && (forall e :: e in entries && e.count != 1 ==> e.prefix in prefix && prefix[e.prefix] == e.count)
  }

  ghost predicate RetainedFrom(entries: seq<Entry>, p: string) {
    exists e :: e in entries && e.prefix == p && e.count != 1
  }

  lemma RetainedOneMore(before: seq<Entry>, e: Entry, prefix: map<string, nat>)
    requires Retained(before, prefix) && forall x :: x in before ==> !SameHead(x.prefix, e.prefix)
    ensures e.prefix !in prefix
    ensures Retained(before + [e], if e.count == 1 then prefix else prefix[e.prefix := e.count])
  {
    var after := before + [e];
    forall p | p in prefix ensures RetainedFrom(after, p) && p != e.prefix {
      var x :| x in before && x.prefix == p && x.count != 1;
      assert x in after;
    }
    if e.count != 1 {
      assert e in after;
      assert RetainedFrom(after, e.prefix);
    }
  }

  /** Drops the entries that occur one time, counting them. */
  method RetainShared(entries: seq<Entry>) returns (oneTime: nat, prefix: map<string, nat>)
    requires DistinctHeads(entries) && forall e :: e in entries && e.prefix == "" ==> e.count == 1
    ensures oneTime == |SingleHeads(entries)| + (if HasEmptyEntry(entries) then 1 else 0)
    ensures Retained(entries, prefix)
    ensures oneTime + SumValues(prefix) == SumCounts(entries)
  {
    oneTime, prefix := 0, map[];
    for i := 0 to |entries|
      invariant oneTime == |SingleHeads(entries[..i])| + (if HasEmptyEntry(entries[..i]) then 1 else 0)
      invariant Retained(entries[..i], prefix)
      invariant oneTime + SumValues(prefix) == SumCounts(entries[..i])
    {
      assert entries[i] in entries;
      EarlierHeadsDiffer(entries, i);
      OneMoreHead(entries[..i], entries[i]);
      SumOneMore(entries, i);
      RetainedOneMore(entries[..i], entries[i], prefix);
      if entries[i].count == 1 {
        oneTime := oneTime + 1;
      } else {
        SumValuesWith(prefix, entries[i].prefix, entries[i].count);
        prefix := prefix[entries[i].prefix := entries[i].count];
      }
    }
    assert entries[..|entries|] == entries;
  }

  lemma ClusteredSummary(entries: seq<Entry>, ids: seq<string>, oneTime: nat, prefix: map<string, nat>)
    requires Clustered(entries, ids)
    requires oneTime == |SingleHeads(entries)| + (if HasEmptyEntry(entries) then 1 else 0)
    requires Retained(entries, prefix)
    ensures Summarises(ids, oneTime, prefix)
  {
    forall c ensures c in SingleHeads(entries) <==> c in GroupsOfOne(ids) {
      if c in Heads(ids) {
        var e := HeadEntry(entries, ids, c);
      }
      if c in SingleHeads(entries) {
        var e :| e in entries && e.prefix != "" && e.count == 1 && e.prefix[0] == c;
        assert EntryFor(e, ids);
        GroupMembers(ids, c);
        assert Group(ids, c)[0] in Group(ids, c);
      }
    }
    assert SingleHeads(entries) == GroupsOfOne(ids);
    GroupHasEntry(entries, ids, "");
    assert HasEmptyEntry(entries) <==> Empties(ids) > 0 by {
      if HasEntry(entries, "") {
        var i :| 0 <= i < |entries| && SameHead(entries[i].prefix, "");
        assert entries[i] in entries;
      }
    }
    forall p | p in prefix
      ensures p != "" && |Group(ids, p[0])| >= 2 && IsLongest(p, Group(ids, p[0])) && prefix[p] == |Group(ids, p[0])|
    {
      assert RetainedFrom(entries, p);
      var e :| e in entries && e.prefix == p && e.count != 1;
      assert EntryFor(e, ids);
    }
    forall c | c in Heads(ids) && |Group(ids, c)| >= 2 ensures LongestCommonPrefix(Group(ids, c)) in prefix {
      var e := HeadEntry(entries, ids, c);
      LongestCommonPrefixIsLongest(Group(ids, c));
      LongestIsUnique(e.prefix, LongestCommonPrefix(Group(ids, c)), Group(ids, c), Group(ids, c));
    }
  }

  lemma HeadEntry(entries: seq<Entry>, ids: seq<string>, c: char) returns (e: Entry)
    requires Clustered(entries, ids) && c in Heads(ids)
    ensures e in entries && e.prefix != "" && e.prefix[0] == c && EntryFor(e, ids)
  {
    var s :| s in ids && s != "" && s[0] == c;
    assert HasEntry(entries, s);
    var i :| 0 <= i < |entries| && SameHead(entries[i].prefix, s);
    e := entries[i];
    assert e in entries;
  }

  /**
   * Groups by first character whatever the order; every identifier is counted, except that all
   * the empty ones count once.
   */
  method CommonHexadecimalPrefix(identifiers: seq<string>) returns (oneTime: nat, prefix: map<string, nat>)
    ensures Summarises(identifiers, oneTime, prefix)
    ensures oneTime + SumValues(prefix) == |identifiers| - Max(Empties(identifiers) - 1, 0)
    ensures oneTime + SumValues(prefix) == |identifiers| <==> Empties(identifiers) <= 1
  {
    var sorted := StringOrder.Sort(identifiers);
    var entries := PlaceAll(sorted);
    EntriesAreForIdentifiers(entries, sorted);
    oneTime, prefix := RetainShared(entries);
    ClusteredSummary(entries, sorted, oneTime, prefix);
    OrderDoesNotMatter(sorted, identifiers, oneTime, prefix);
    SameEmpties(sorted, identifiers);
  }

  lemma EntriesAreForIdentifiers(entries: seq<Entry>, seen: seq<string>)
    requires Clustered(entries, seen)
    ensures DistinctHeads(entries) && SumCounts(entries) + Max(Empties(seen) - 1, 0) == |seen|
    ensures forall e :: e in entries ==> EntryFor(e, seen)
  {
  }

  lemma SameEmpties(a: seq<string>, b: seq<string>)
    requires multiset(a) == multiset(b)
    ensures Empties(a) == Empties(b) && |a| == |b|
  {
    EmptiesCount(a);
    EmptiesCount(b);
    assert |multiset(a)| == |a| && |multiset(b)| == |b|;
  }

  /** The clustering loop, over the sorted identifiers. */
  method PlaceAll(sorted: seq<string>) returns (entries: seq<Entry>)
    ensures Clustered(entries, sorted)
  {
    entries := [];
    for n := 0 to |sorted|
      invariant Clustered(entries, sorted[..n])
    {
      entries := PlaceValue(entries, sorted[n], sorted[..n]);
      TakeOneMore(sorted, n);
    }
    assert sorted[..|sorted|] == sorted;
  }

  lemma TakeOneMore<T>(s: seq<T>, n: nat)
    requires n < |s|
    ensures s[..n + 1] == s[..n] + [s[n]]
  {
  }

  /** Two empty identifiers are counted once. */
  lemma TwoEmptiesCountOnce(oneTime: nat, prefix: map<string, nat>)
    requires Summarises(["", ""], oneTime, prefix)
    ensures oneTime + SumValues(prefix) == 1
  {
    var ids := ["", ""];
    assert Heads(ids) == {} && GroupsOfOne(ids) == {};
    assert ids[..1] == [""] && ids[..1][..0] == [] && Empties(ids) == 2;
    forall p ensures p !in prefix {
      if p in prefix {
        GroupMembers(ids, p[0]);
        assert Group(ids, p[0])[0] in Group(ids, p[0]);
      }
    }
    assert prefix == map[];
  }
}
