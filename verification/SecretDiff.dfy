/** Comparison of two revisions of a confidential file: by variable for dotenv
    files, by line otherwise, with values masked unless revealed. */
module SecretDiff {
  import opened Common
  import Dotenv

  datatype Change =
    | Added(value: string)
    | Removed(value: string)
    | Modified(oldValue: string, newValue: string)
    | Unchanged(value: string)

  datatype DiffEntry = DiffEntry(key: string, change: Change)

  datatype FileReport = FileReport(
    path: string,
    isDotenv: bool,
    entries: seq<DiffEntry>,
    added: nat,
    removed: nat,
    modified: nat)

  type Vars = map<string, string>

  // ----- masking

  function MaskValue(v: string): string {
    if |v| <= 6 then "***"
    else if |v| <= 12 then v[..2] + "***" + v[|v| - 2..]
    else v[..3] + "***" + v[|v| - 3..]
  }

  /** What a masked value gives away, exactly: nothing but its being short for six characters or fewer; the first and
      last two for seven to twelve; the first and last three beyond. Two values look the same exactly when they agree on
      that. */
  lemma {:induction false} MaskHides(v: string, w: string)
    ensures |v| <= 6 && |w| <= 6 ==> MaskValue(v) == MaskValue(w)
    ensures 7 <= |v| <= 12 && 7 <= |w| <= 12 ==>
      (MaskValue(v) == MaskValue(w) <==> v[..2] == w[..2] && v[|v| - 2..] == w[|w| - 2..])
    ensures |v| >= 13 && |w| >= 13 ==>
      (MaskValue(v) == MaskValue(w) <==> v[..3] == w[..3] && v[|v| - 3..] == w[|w| - 3..])
    ensures (|v| <= 6) != (|w| <= 6) || (|v| <= 12) != (|w| <= 12) ==> MaskValue(v) != MaskValue(w)
  {
    MaskLength(v);
    MaskLength(w);
    if MaskValue(v) == MaskValue(w) && 7 <= |v| <= 12 && 7 <= |w| <= 12 {
      assert MaskValue(v)[..2] == v[..2] && MaskValue(w)[..2] == w[..2];
      assert MaskValue(v)[5..] == v[|v| - 2..] && MaskValue(w)[5..] == w[|w| - 2..];
    }
    if MaskValue(v) == MaskValue(w) && |v| >= 13 && |w| >= 13 {
      assert MaskValue(v)[..3] == v[..3] && MaskValue(w)[..3] == w[..3];
      assert MaskValue(v)[6..] == v[|v| - 3..] && MaskValue(w)[6..] == w[|w| - 3..];
    }
  }

  lemma {:induction false} MaskLength(v: string)
    ensures |MaskValue(v)| == if |v| <= 6 then 3 else if |v| <= 12 then 7 else 9
    ensures |v| <= 6 ==> MaskValue(v) == "***"
  {
  }

  function Display(v: string, shown: bool): string {
    if shown then v else MaskValue(v)
  }

  function MaskChange(c: Change): Change {
    match c
    case Added(v) => Added(MaskValue(v))
    case Removed(v) => Removed(MaskValue(v))
    case Modified(v, w) => Modified(MaskValue(v), MaskValue(w))
    case Unchanged(v) => Unchanged(MaskValue(v))
  }

  // ----- key order

  /** Lexicographic order by character. */
  predicate Less(a: string, b: string) {
    b != "" && (a == "" || a[0] < b[0] || (a[0] == b[0] && Less(a[1..], b[1..])))
  }

  lemma {:induction false} LessTotal(a: string, b: string)
    ensures Less(a, b) || a == b || Less(b, a)
    ensures !(Less(a, b) && Less(b, a)) && !Less(a, a)
  {
    if a != "" && b != "" {
      LessTotal(a[1..], b[1..]);
      LessTotal(a[1..], a[1..]);
      if a[0] == b[0] && a[1..] == b[1..] {
        assert a == [a[0]] + a[1..] && b == [b[0]] + b[1..];
      }
    } else if a != "" {
      LessTotal(a[1..], a[1..]);
    }
  }

  lemma {:induction false} LessTransitive(a: string, b: string, c: string)
    requires Less(a, b) && Less(b, c)
    ensures Less(a, c)
  {
    if a != "" && a[0] == b[0] == c[0] {
      LessTransitive(a[1..], b[1..], c[1..]);
    }
  }

  /** The texts agree up to position i and a has the smaller character there. */
  predicate SmallerAt(a: string, b: string, i: nat) {
    i < |a| && i < |b| && a[..i] == b[..i] && a[i] < b[i]
  }

  lemma {:induction false} SmallerInTail(a: string, b: string, i: nat)
    requires a != "" && b != "" && i > 0
    ensures SmallerAt(a, b, i) <==> a[0] == b[0] && SmallerAt(a[1..], b[1..], i - 1)
  {
    if i < |a| && i < |b| {
      assert a[..i] == [a[0]] + a[1..][..i - 1] && b[..i] == [b[0]] + b[1..][..i - 1];
      assert a[..i][1..] == a[1..][..i - 1] && b[..i][1..] == b[1..][..i - 1];
    }
  }

  lemma {:induction false} PrefixInTail(a: string, b: string)
    requires a != "" && b != ""
    ensures a < b <==> a[0] == b[0] && a[1..] < b[1..]
  {
    assert a == [a[0]] + a[1..] && b == [b[0]] + b[1..];
  }

  /** The order is that of the first differing character, a text before its continuations. */
  lemma {:induction false} LessMeaning(a: string, b: string)
    ensures Less(a, b) <==> a < b || exists i: nat :: SmallerAt(a, b, i)
  {
    if a != "" && b != "" {
      LessMeaning(a[1..], b[1..]);
      PrefixInTail(a, b);
      assert SmallerAt(a, b, 0) <==> a[0] < b[0];
      hide SmallerAt;
      if i: nat :| SmallerAt(a, b, i) {
        if i > 0 {
          SmallerInTail(a, b, i);
        }
      }
      if i: nat :| SmallerAt(a[1..], b[1..], i) {
        SmallerInTail(a, b, i + 1);
      }
    }
  }

  predicate Ascending(keys: seq<string>) {
    forall i, j :: 0 <= i < j < |keys| ==> Less(keys[i], keys[j])
  }

  /** A set of keys has one ascending list. */
  lemma {:induction false} AscendingUnique(a: seq<string>, b: seq<string>)
    requires Ascending(a) && Ascending(b) && forall k :: k in a <==> k in b
    ensures a == b
  {
    hide Less;
    if a == [] {
      if b != [] {
        SomeMember(b);
      }
    } else {
      assert a[0] in b && b != [];
      assert b[0] in a;
      var i :| 0 <= i < |b| && b[i] == a[0];
      var j :| 0 <= j < |a| && a[j] == b[0];
      LessTotal(a[0], b[0]);
      assert a[0] == b[0];
      SameTail(a, b);
      AscendingUnique(a[1..], b[1..]);
    }
  }

  lemma {:induction false} SomeMember(a: seq<string>)
    requires a != []
    ensures exists k :: k in a
  {
    assert a[0] in a;
  }

  lemma {:induction false} SameTail(a: seq<string>, b: seq<string>)
    requires a != [] && b != [] && a[0] == b[0] && Ascending(a) && Ascending(b) && forall k :: k in a <==> k in b
    ensures Ascending(a[1..]) && Ascending(b[1..]) && forall k :: k in a[1..] <==> k in b[1..]
  {
    hide Less;
    forall k ensures k in a[1..] <==> k in a && k != a[0] {
      TailMember(a, k);
    }
    forall k ensures k in b[1..] <==> k in b && k != b[0] {
      TailMember(b, k);
    }
  }

  lemma {:induction false} TailMember(a: seq<string>, k: string)
    requires a != [] && Ascending(a)
    ensures k in a[1..] <==> k in a && k != a[0]
  {
    hide Less;
    LessTotal(a[0], a[0]);
    if k in a && k != a[0] {
      var i :| 0 <= i < |a| && a[i] == k;
      assert a[1..][i - 1] == k;
    }
  }

  method LeastKey(keys: set<string>) returns (smallest: string)
    requires keys != {}
    ensures smallest in keys && forall k :: k in keys && k != smallest ==> Less(smallest, k)
  {
    hide Less;
    smallest :| smallest in keys;
    var rest := keys - {smallest};
    while rest != {}
      invariant rest <= keys && smallest in keys
      invariant forall k :: k in keys && k !in rest && k != smallest ==> Less(smallest, k)
      decreases rest
    {
      var k :| k in rest;
      rest := rest - {k};
      LessTotal(smallest, k);
      var smaller := IsLess(k, smallest);
      if smaller {
        forall j | j in keys && j !in rest && j != k ensures Less(k, j) {
          if j != smallest {
            LessTransitive(k, smallest, j);
          }
        }
        smallest := k;
      }
    }
  }

  method IsLess(a: string, b: string) returns (r: bool)
    ensures r == Less(a, b)
  {
    r := Less(a, b);
  }

  // ----- the dotenv diff

  /** Later assignments win. */
  function LastWins(pairs: seq<Dotenv.Pair>): Vars {
    if pairs == [] then map[]
    else LastWins(pairs[..|pairs| - 1])[pairs[|pairs| - 1].key := pairs[|pairs| - 1].value]
  }

  /** A variable's value is that of its last assignment. */
  lemma {:induction false} LastWinsValue(pairs: seq<Dotenv.Pair>, i: nat)
    requires i < |pairs| && forall j :: i < j < |pairs| ==> pairs[j].key != pairs[i].key
    ensures pairs[i].key in LastWins(pairs) && LastWins(pairs)[pairs[i].key] == pairs[i].value
  {
    if i < |pairs| - 1 {
      LastWinsValue(pairs[..|pairs| - 1], i);
    }
  }

  /** The variables are those assigned. */
  lemma {:induction false} LastWinsKeys(pairs: seq<Dotenv.Pair>, key: string)
    ensures key in LastWins(pairs) <==> exists i :: 0 <= i < |pairs| && pairs[i].key == key
  {
    if pairs != [] {
      var t := pairs[..|pairs| - 1];
      LastWinsKeys(t, key);
      assert forall i :: 0 <= i < |t| ==> t[i] == pairs[i];
    }
  }

  function ChangeOf(key: string, was: Vars, now: Vars, shown: bool): Change
    requires key in was || key in now
  {
    if key !in was then Added(Display(now[key], shown))
    else if key !in now then Removed(Display(was[key], shown))
    else if was[key] == now[key] then Unchanged(Display(was[key], shown))
    else Modified(Display(was[key], shown), Display(now[key], shown))
  }

  function Keys(es: seq<DiffEntry>): (ks: seq<string>)
    ensures |ks| == |es|
    ensures forall i :: 0 <= i < |es| ==> ks[i] == es[i].key
  {
    seq(|es|, i requires 0 <= i < |es| => es[i].key)
  }

  /** One entry per key of either side, in key order, each telling what happened to its key. */
  ghost predicate IsDiff(es: seq<DiffEntry>, was: Vars, now: Vars, shown: bool) {
    && Ascending(Keys(es))
    && (forall k :: k in Keys(es) <==> k in was || k in now)
    && (forall i :: 0 <= i < |es| ==>
          (es[i].key in was || es[i].key in now) && es[i].change == ChangeOf(es[i].key, was, now, shown))
  }

  datatype Tally = Tally(added: nat, removed: nat, modified: nat)

  function TallyOne(t: Tally, c: Change): Tally {
    match c
    case Added(_) => t.(added := t.added + 1)
    case Removed(_) => t.(removed := t.removed + 1)
    case Modified(_, _) => t.(modified := t.modified + 1)
    case Unchanged(_) => t
  }

  /** How many entries of each kind there are. */
  function TallyOf(es: seq<DiffEntry>): Tally {
    if es == [] then Tally(0, 0, 0) else TallyOne(TallyOf(es[..|es| - 1]), es[|es| - 1].change)
  }

  predicate CountsMatch(r: FileReport) {
    TallyOf(r.entries) == Tally(r.added, r.removed, r.modified)
  }

  method CollectVars(pairs: seq<Dotenv.Pair>) returns (vars: Vars)
    ensures vars == LastWins(pairs)
  {
    vars := map[];
    for i := 0 to |pairs|
      invariant vars == LastWins(pairs[..i])
    {
      assert pairs[..i + 1][..i] == pairs[..i];
      vars := vars[pairs[i].key := pairs[i].value];
    }
    assert pairs[..|pairs|] == pairs;
  }

  method DiffDotenv(path: string, oldPairs: seq<Dotenv.Pair>, newPairs: seq<Dotenv.Pair>, shown: bool)
    returns (r: FileReport)
    ensures r.path == path && r.isDotenv
    ensures IsDiff(r.entries, LastWins(oldPairs), LastWins(newPairs), shown)
    ensures CountsMatch(r)
  {
    hide Less, MaskValue, LastWins, Ascending, TallyOf;
    assert Ascending([]) && TallyOf([]) == Tally(0, 0, 0) by { EmptyDiff(); }
    var oldMap := CollectVars(oldPairs);
    var newMap := CollectVars(newPairs);
    var allKeys := oldMap.Keys + newMap.Keys;
    var entries: seq<DiffEntry> := [];
    var added, removed, modified := 0, 0, 0;
    while allKeys != {}
      invariant allKeys <= oldMap.Keys + newMap.Keys
      invariant Ascending(Keys(entries))
      invariant forall i, k :: 0 <= i < |entries| && k in allKeys ==> Less(entries[i].key, k)
      invariant forall k :: k in Keys(entries) <==> k in oldMap.Keys + newMap.Keys - allKeys
      invariant forall i :: 0 <= i < |entries| ==>
        (entries[i].key in oldMap || entries[i].key in newMap)
        && entries[i].change == ChangeOf(entries[i].key, oldMap, newMap, shown)
      invariant TallyOf(entries) == Tally(added, removed, modified)
      decreases allKeys
    {
      var key := LeastKey(allKeys);
      var change := ChangeOf(key, oldMap, newMap, shown);
      match change {
        case Added(_) => added := added + 1;
        case Removed(_) => removed := removed + 1;
        case Modified(_, _) => modified := modified + 1;
        case Unchanged(_) =>
      }
      KeysAppend(entries, DiffEntry(key, change));
      AscendingAppend(Keys(entries), key);
      MemberAppend(Keys(entries), key);
      TallyAppend(entries, DiffEntry(key, change));
      allKeys := allKeys - {key};
      entries := entries + [DiffEntry(key, change)];
    }
    r := FileReport(path, true, entries, added, removed, modified);
  }

  lemma {:induction false} EmptyDiff()
    ensures Ascending([]) && TallyOf([]) == Tally(0, 0, 0)
  {
  }

  lemma {:induction false} TallyAppend(es: seq<DiffEntry>, e: DiffEntry)
    ensures TallyOf(es + [e]) == TallyOne(TallyOf(es), e.change)
  {
    hide TallyOne;
    assert (es + [e])[..|es|] == es;
  }

  lemma {:induction false} KeysAppend(es: seq<DiffEntry>, e: DiffEntry)
    ensures Keys(es + [e]) == Keys(es) + [e.key]
  {
  }

  lemma {:induction false} AscendingAppend(ks: seq<string>, k: string)
    requires Ascending(ks) && forall i :: 0 <= i < |ks| ==> Less(ks[i], k)
    ensures Ascending(ks + [k])
  {
    hide Less;
  }

  lemma {:induction false} MemberAppend(ks: seq<string>, k: string)
    ensures forall x :: x in ks + [k] <==> x in ks || x == k
  {
  }

  lemma {:induction false} AscendingFresh(ks: seq<string>, n: nat)
    requires Ascending(ks) && n < |ks|
    ensures ks[n] !in ks[..n]
  {
    hide Less;
    LessTotal(ks[n], ks[n]);
  }

  // ----- what a dotenv diff says

  /** Doing to a map what an entry says was done. */
  function Apply(m: Vars, e: DiffEntry): Vars {
    match e.change
    case Added(v) => m[e.key := v]
    case Removed(_) => m - {e.key}
    case Modified(_, v) => m[e.key := v]
    case Unchanged(_) => m
  }

  function Replay(m: Vars, es: seq<DiffEntry>): Vars {
    if es == [] then m else Apply(Replay(m, es[..|es| - 1]), es[|es| - 1])
  }

  /** Two maps say the same about one key. */
  predicate AgreeOn(m: Vars, n: Vars, k: string) {
    (k in m <==> k in n) && (k in m && k in n ==> m[k] == n[k])
  }

  lemma {:induction false} ApplyOwnKey(m: Vars, e: DiffEntry, was: Vars, now: Vars)
    requires (e.key in was || e.key in now) && e.change == ChangeOf(e.key, was, now, true) && AgreeOn(m, was, e.key)
    ensures AgreeOn(Apply(m, e), now, e.key)
  {
  }

  lemma {:induction false} ApplyOtherKey(m: Vars, e: DiffEntry, k: string)
    requires k != e.key
    ensures AgreeOn(Apply(m, e), m, k)
  {
  }

  /** After replaying a prefix, the keys it covers are as in the new map and all others as in the old. */
  lemma {:induction false} ReplayPrefix(es: seq<DiffEntry>, was: Vars, now: Vars, n: nat, k: string)
    requires IsDiff(es, was, now, true) && n <= |es|
    ensures AgreeOn(Replay(was, es[..n]), if k in Keys(es)[..n] then now else was, k)
  {
    hide Less, ChangeOf, Apply, Ascending;
    if n > 0 {
      var e, m := es[n - 1], Replay(was, es[..n - 1]);
      ReplayPrefix(es, was, now, n - 1, k);
      assert es[..n][..n - 1] == es[..n - 1];
      assert Keys(es)[..n] == Keys(es)[..n - 1] + [e.key];
      if k == e.key {
        AscendingFresh(Keys(es), n - 1);
        ApplyOwnKey(m, e, was, now);
      } else {
        ApplyOtherKey(m, e, k);
      }
    }
  }

  /** Replaying a revealed diff on the old variables gives the new ones. */
  lemma {:induction false} ReplayGivesNew(es: seq<DiffEntry>, was: Vars, now: Vars)
    requires IsDiff(es, was, now, true)
    ensures Replay(was, es) == now
  {
    hide Less, Replay, ChangeOf, Ascending;
    assert es[..|es|] == es && Keys(es)[..|es|] == Keys(es);
    var m := Replay(was, es);
    forall k ensures AgreeOn(m, now, k) {
      ReplayPrefix(es, was, now, |es|, k);
    }
    assert forall k :: k in m ==> AgreeOn(m, now, k);
    assert forall k :: k in now ==> AgreeOn(m, now, k);
  }

  function Reverse(c: Change): Change {
    match c
    case Added(v) => Removed(v)
    case Removed(v) => Added(v)
    case Modified(v, w) => Modified(w, v)
    case Unchanged(v) => Unchanged(v)
  }

  function Reversed(es: seq<DiffEntry>): (rs: seq<DiffEntry>)
    ensures |rs| == |es|
    ensures forall i :: 0 <= i < |es| ==> rs[i] == DiffEntry(es[i].key, Reverse(es[i].change))
  {
    seq(|es|, i requires 0 <= i < |es| => DiffEntry(es[i].key, Reverse(es[i].change)))
  }

  /** A diff read backwards is the diff of the two sides exchanged, so replaying it on the new variables gives the
      old. */
  lemma {:induction false} ReverseGivesOld(es: seq<DiffEntry>, was: Vars, now: Vars, shown: bool)
    requires IsDiff(es, was, now, shown)
    ensures IsDiff(Reversed(es), now, was, shown)
    ensures shown ==> Replay(now, Reversed(es)) == was
  {
    hide Less, Ascending, MaskValue, Replay;
    var rs := Reversed(es);
    assert Keys(rs) == Keys(es);
    forall i | 0 <= i < |rs| ensures rs[i].change == ChangeOf(rs[i].key, now, was, shown) {
      assert es[i].change == ChangeOf(es[i].key, was, now, shown);
    }
    if shown {
      ReplayGivesNew(rs, now, was);
    }
  }

  datatype Kind = NewName | GoneName | NewValue

  predicate IsKind(kind: Kind, c: Change) {
    match kind
    case NewName => c.Added?
    case GoneName => c.Removed?
    case NewValue => c.Modified?
  }

  function CountOf(kind: Kind, t: Tally): nat {
    match kind
    case NewName => t.added
    case GoneName => t.removed
    case NewValue => t.modified
  }

  /** The names of the entries of one kind. */
  function NamesOf(kind: Kind, es: seq<DiffEntry>): set<string> {
    if es == [] then {}
    else NamesOf(kind, es[..|es| - 1]) + if IsKind(kind, es[|es| - 1].change) then {es[|es| - 1].key} else {}
  }

  lemma {:induction false} NamesMember(kind: Kind, es: seq<DiffEntry>, k: string)
    ensures k in NamesOf(kind, es) <==> exists i :: 0 <= i < |es| && es[i].key == k && IsKind(kind, es[i].change)
  {
    hide IsKind;
    if es != [] {
      var t := es[..|es| - 1];
      NamesMember(kind, t, k);
      assert forall i :: 0 <= i < |t| ==> t[i] == es[i];
    }
  }

  /** Names are distinct, so counting entries is counting names. */
  lemma {:induction false} CountIsNames(kind: Kind, es: seq<DiffEntry>, n: nat)
    requires Ascending(Keys(es)) && n <= |es|
    ensures CountOf(kind, TallyOf(es[..n])) == |NamesOf(kind, es[..n])|
  {
    hide Less, Ascending, IsKind;
    if n > 0 {
      var t, e := es[..n - 1], es[n - 1];
      CountIsNames(kind, es, n - 1);
      assert es[..n][..n - 1] == t;
      AscendingFresh(Keys(es), n - 1);
      NamesMember(kind, t, e.key);
      assert forall i :: 0 <= i < |t| ==> t[i].key == Keys(es)[..n - 1][i];
      TallyKind(kind, TallyOf(t), e.change);
    }
  }

  lemma {:induction false} TallyKind(kind: Kind, t: Tally, c: Change)
    ensures CountOf(kind, TallyOne(t, c)) == CountOf(kind, t) + if IsKind(kind, c) then 1 else 0
  {
  }

  /** The counts are how many names were added, removed and given another value. */
  lemma {:induction false} CountsMeaning(r: FileReport, was: Vars, now: Vars, shown: bool)
    requires IsDiff(r.entries, was, now, shown) && CountsMatch(r)
    ensures r.added == |now.Keys - was.Keys| && r.removed == |was.Keys - now.Keys|
    ensures r.modified == |set k | k in was && k in now && was[k] != now[k]|
  {
    KindCount(NewName, r, was, now, shown);
    KindCount(GoneName, r, was, now, shown);
    KindCount(NewValue, r, was, now, shown);
    hide IsDiff;
  }

  function NamesBetween(kind: Kind, was: Vars, now: Vars): set<string> {
    match kind
    case NewName => now.Keys - was.Keys
    case GoneName => was.Keys - now.Keys
    case NewValue => set k | k in was && k in now && was[k] != now[k]
  }

  lemma {:induction false} KindCount(kind: Kind, r: FileReport, was: Vars, now: Vars, shown: bool)
    requires IsDiff(r.entries, was, now, shown) && CountsMatch(r)
    ensures CountOf(kind, Tally(r.added, r.removed, r.modified)) == |NamesBetween(kind, was, now)|
  {
    hide TallyOf, NamesOf, Less, Ascending, ChangeOf;
    var es := r.entries;
    assert es[..|es|] == es;
    CountIsNames(kind, es, |es|);
    forall k ensures k in NamesOf(kind, es) <==> k in NamesBetween(kind, was, now) {
      KindOfName(kind, es, was, now, shown, k);
    }
    hide IsDiff, NamesOf, NamesBetween;
    assert NamesOf(kind, es) == NamesBetween(kind, was, now);
  }

  lemma {:induction false} KindOfName(kind: Kind, es: seq<DiffEntry>, was: Vars, now: Vars, shown: bool, k: string)
    requires IsDiff(es, was, now, shown)
    ensures k in NamesOf(kind, es) <==> match kind
                                        case NewName => k in now && k !in was
                                        case GoneName => k in was && k !in now
                                        case NewValue => k in was && k in now && was[k] != now[k]
  {
    hide NamesOf, Less, Ascending, MaskValue;
    NamesMember(kind, es, k);
    if k in was || k in now {
      var i :| 0 <= i < |es| && Keys(es)[i] == k;
      assert es[i].change == ChangeOf(k, was, now, shown);
    }
  }

  lemma {:induction false} TallyZero(es: seq<DiffEntry>)
    ensures TallyOf(es) == Tally(0, 0, 0) <==> forall i :: 0 <= i < |es| ==> es[i].change.Unchanged?
  {
    if es != [] {
      TallyZero(es[..|es| - 1]);
      assert forall i :: 0 <= i < |es| - 1 ==> es[..|es| - 1][i] == es[i];
    }
  }

  /** A dotenv diff reports no change exactly when both sides define the same variables. */
  lemma {:induction false} NoChangeMeansSameVars(r: FileReport, was: Vars, now: Vars, shown: bool)
    requires IsDiff(r.entries, was, now, shown) && CountsMatch(r)
    ensures r.added == r.removed == r.modified == 0 <==> was == now
  {
    hide Less, MaskValue, TallyOf;
    var es := r.entries;
    TallyZero(es);
    if forall i :: 0 <= i < |es| ==> es[i].change.Unchanged? {
      forall k ensures (k in was <==> k in now) && (k in was && k in now ==> was[k] == now[k]) {
        if k in was || k in now {
          var i :| 0 <= i < |es| && Keys(es)[i] == k;
          assert es[i].change.Unchanged?;
        }
      }
      assert was == now;
    }
    if was == now {
      forall i | 0 <= i < |es| ensures es[i].change.Unchanged? {
      }
    }
  }

  function MaskEntries(es: seq<DiffEntry>): (ms: seq<DiffEntry>)
    ensures |ms| == |es|
    ensures forall i :: 0 <= i < |es| ==> ms[i] == DiffEntry(es[i].key, MaskChange(es[i].change))
  {
    seq(|es|, i requires 0 <= i < |es| => DiffEntry(es[i].key, MaskChange(es[i].change)))
  }

  /** Masking changes displayed values only: the masked diff is the revealed one with each value masked. */
  lemma {:induction false} MaskingKeepsShape(es: seq<DiffEntry>, ms: seq<DiffEntry>, was: Vars, now: Vars)
    requires IsDiff(es, was, now, true) && IsDiff(ms, was, now, false)
    ensures ms == MaskEntries(es) && TallyOf(ms) == TallyOf(es)
  {
    hide Less, MaskValue;
    AscendingUnique(Keys(es), Keys(ms));
    assert |es| == |Keys(es)| == |Keys(ms)| == |ms|;
    forall i | 0 <= i < |es| ensures ms[i] == MaskEntries(es)[i] {
      assert Keys(es)[i] == Keys(ms)[i];
    }
    TallyMasked(es);
  }

  lemma {:induction false} TallyMasked(es: seq<DiffEntry>)
    ensures TallyOf(MaskEntries(es)) == TallyOf(es)
  {
    hide MaskValue;
    if es != [] {
      var ms := MaskEntries(es);
      assert ms[..|ms| - 1] == MaskEntries(es[..|es| - 1]);
      TallyMasked(es[..|es| - 1]);
    }
  }

  // ----- the line diff

  /** The lines that do not occur among the others, in order. */
  function Missing(lines: seq<string>, others: seq<string>): seq<string> {
    if lines == [] then []
    else
      var before := Missing(lines[..|lines| - 1], others);
      if lines[|lines| - 1] in others then before else before + [lines[|lines| - 1]]
  }

  function RemovedEntries(lines: seq<string>, shown: bool): (es: seq<DiffEntry>)
    ensures |es| == |lines|
    ensures forall i :: 0 <= i < |es| ==>
      es[i] == DiffEntry("-", Removed(if shown then lines[i] else MaskValue(lines[i])))
  {
    seq(|lines|, i requires 0 <= i < |lines| => DiffEntry("-", Removed(Display(lines[i], shown))))
  }

  function AddedEntries(lines: seq<string>, shown: bool): (es: seq<DiffEntry>)
    ensures |es| == |lines|
    ensures forall i :: 0 <= i < |es| ==>
      es[i] == DiffEntry("+", Added(if shown then lines[i] else MaskValue(lines[i])))
  {
    seq(|lines|, i requires 0 <= i < |lines| => DiffEntry("+", Added(Display(lines[i], shown))))
  }

  lemma {:induction false} NothingMissing(lines: seq<string>, others: seq<string>, shown: bool)
    ensures Missing(lines[..0], others) == [] && RemovedEntries([], shown) == AddedEntries([], shown) == []
  {
  }

  lemma {:induction false} MissingNext(lines: seq<string>, i: nat, others: seq<string>)
    requires i < |lines|
    ensures Missing(lines[..i + 1], others)
            == if lines[i] in others then Missing(lines[..i], others) else Missing(lines[..i], others) + [lines[i]]
  {
    assert lines[..i + 1][..i] == lines[..i];
  }

  lemma {:induction false} EntriesNext(lines: seq<string>, line: string, shown: bool)
    ensures RemovedEntries(lines + [line], shown)
            == RemovedEntries(lines, shown) + [DiffEntry("-", Removed(Display(line, shown)))]
    ensures AddedEntries(lines + [line], shown)
            == AddedEntries(lines, shown) + [DiffEntry("+", Added(Display(line, shown)))]
  {
  }

  method DiffText(path: string, oldText: string, newText: string, shown: bool) returns (r: FileReport)
    ensures r.path == path && !r.isDotenv && r.modified == 0
    ensures var gone, come := Missing(Dotenv.Lines(oldText), Dotenv.Lines(newText)),
                              Missing(Dotenv.Lines(newText), Dotenv.Lines(oldText));
            && r.removed == |gone| && r.added == |come|
            && r.entries == RemovedEntries(gone, shown) + AddedEntries(come, shown)
  {
    hide *;
    var oldLines := Dotenv.Lines(oldText);
    var newLines := Dotenv.Lines(newText);
    var oldSet := set l | l in oldLines;
    var newSet := set l | l in newLines;
    var entries: seq<DiffEntry> := [];
    var removed, added := 0, 0;
    NothingMissing(oldLines, newLines, shown);
    for i := 0 to |oldLines|
      invariant entries == RemovedEntries(Missing(oldLines[..i], newLines), shown)
      invariant removed == |Missing(oldLines[..i], newLines)|
    {
      var line := oldLines[i];
      MissingNext(oldLines, i, newLines);
      EntriesNext(Missing(oldLines[..i], newLines), line, shown);
      if line !in newSet {
        removed := removed + 1;
        entries := entries + [DiffEntry("-", Removed(Display(line, shown)))];
      }
    }
    assert oldLines[..|oldLines|] == oldLines;
    ghost var first := entries;
    NothingMissing(newLines, oldLines, shown);
    for i := 0 to |newLines|
      invariant entries == first + AddedEntries(Missing(newLines[..i], oldLines), shown)
      invariant added == |Missing(newLines[..i], oldLines)|
    {
      var line := newLines[i];
      MissingNext(newLines, i, oldLines);
      EntriesNext(Missing(newLines[..i], oldLines), line, shown);
      if line !in oldSet {
        added := added + 1;
        entries := entries + [DiffEntry("+", Added(Display(line, shown)))];
      }
    }
    assert newLines[..|newLines|] == newLines;
    r := FileReport(path, false, entries, added, removed, 0);
  }

  /** Order and repetitions are kept: the missing lines of two texts in a row are those of each in a row, and a single
      line is missing exactly when it does not occur among the others. */
  lemma {:induction false} MissingConcat(a: seq<string>, b: seq<string>, others: seq<string>)
    ensures Missing(a + b, others) == Missing(a, others) + Missing(b, others)
    decreases |b|
  {
    if b == [] {
      assert a + b == a;
    } else {
      var t, l := b[..|b| - 1], b[|b| - 1];
      assert (a + b)[..|a + b| - 1] == a + t;
      MissingConcat(a, t, others);
    }
  }

  lemma {:induction false} MissingOne(l: string, others: seq<string>)
    ensures Missing([l], others) == if l in others then [] else [l]
  {
    assert [l][..0] == [];
  }

  lemma {:induction false} MissingNone(lines: seq<string>, others: seq<string>)
    ensures Missing(lines, others) == [] <==> forall l :: l in lines ==> l in others
  {
    if lines != [] {
      var t := lines[..|lines| - 1];
      MissingNone(t, others);
      assert lines == t + [lines[|lines| - 1]];
    }
  }

  /** The line diff reports no change exactly when both texts have the same set of lines. */
  lemma {:induction false} TextUnchangedMeansSameLines(a: string, b: string)
    ensures |Missing(Dotenv.Lines(a), Dotenv.Lines(b))| == 0 && |Missing(Dotenv.Lines(b), Dotenv.Lines(a))| == 0
            <==> SameLines(a, b)
  {
    MissingNone(Dotenv.Lines(a), Dotenv.Lines(b));
    MissingNone(Dotenv.Lines(b), Dotenv.Lines(a));
  }

  /** "No changes" does not mean identical: reordering lines goes unnoticed. */
  lemma {:induction false} ReorderingUnnoticed()
    ensures var a, b := "x\ny", "y\nx";
            a != b && Missing(Dotenv.Lines(a), Dotenv.Lines(b)) == [] && Missing(Dotenv.Lines(b), Dotenv.Lines(a)) == []
  {
    var a, b := "x\ny", "y\nx";
    TwoLines('x', 'y');
    TwoLines('y', 'x');
    MissingNone(Dotenv.Lines(a), Dotenv.Lines(b));
    MissingNone(Dotenv.Lines(b), Dotenv.Lines(a));
  }

  lemma {:induction false} TwoLines(c: char, d: char)
    requires c != '\n' && c != '\r' && d != '\n'
    ensures Dotenv.Lines([c, '\n', d]) == [[c], [d]]
  {
    var text := [c, '\n', d];
    Dotenv.LinesCons([c], [d]);
    assert text == [c] + "\n" + [d];
    assert Dotenv.Lines([d]) == [[d]];
  }

  // ----- choosing the diff and adding up files

  /** The part of a path after its last slash. */
  function FileName(path: string): string {
    if path == "" || path[|path| - 1] == '/' then "" else FileName(path[..|path| - 1]) + [path[|path| - 1]]
  }

  predicate IsDotenvName(path: string) {
    var name := FileName(path);
    name == ".env" || ".env." <= name || (|name| >= 4 && name[|name| - 4..] == ".env")
  }

  lemma {:induction false} FileNameMeaning(dir: string, name: string)
    requires '/' !in name
    ensures FileName(name) == name && FileName(dir + "/" + name) == name
  {
    if name == "" {
      assert (dir + "/" + name)[|dir + "/" + name| - 1] == '/';
    } else {
      var t := name[..|name| - 1];
      FileNameMeaning(dir, t);
      var path := dir + "/" + name;
      assert path[..|path| - 1] == dir + "/" + t && path[|path| - 1] == name[|name| - 1];
    }
  }

  /** Dotenv files are `.env`, `.env.` and anything, and anything followed by `.env`, in any directory; no others. */
  lemma {:induction false} DotenvNames(dir: string, name: string)
    requires '/' !in name
    ensures IsDotenvName(name) == IsDotenvName(dir + "/" + name)
    ensures IsDotenvName(name)
            <==> name == ".env" || (exists rest :: name == ".env." + rest) || (exists stem :: name == stem + ".env")
  {
    hide FileName;
    FileNameMeaning(dir, name);
    if ".env." <= name {
      assert name == ".env." + name[5..];
    }
    if |name| >= 4 && name[|name| - 4..] == ".env" {
      assert name == name[..|name| - 4] + ".env";
    }
    if rest :| name == ".env." + rest {
      assert name[..5] == ".env.";
    }
    if stem :| name == stem + ".env" {
      assert name[|name| - 4..] == ".env";
    }
  }

  /** The variables a file defines. */
  function VarsOf(decoded: Option<string>): Vars
    requires Dotenv.Parse(decoded).Ok?
  {
    LastWins(Dotenv.PairsOf(Dotenv.Parse(decoded).value))
  }

  ghost predicate SameLines(a: string, b: string) {
    forall l :: l in Dotenv.Lines(a) <==> l in Dotenv.Lines(b)
  }

  predicate HasChange(r: FileReport) {
    r.added > 0 || r.removed > 0 || r.modified > 0
  }

  /** Dotenv files that both parse are compared by variable; everything else by line. The decoded text of each side is
      absent when its bytes are not UTF-8; the lossy text always exists. A change is reported exactly when the variables
      differ, or, by line, when the sets of lines differ. */
  method DiffFileBytes(path: string, oldDecoded: Option<string>, newDecoded: Option<string>, oldLossy: string,
                       newLossy: string, shown: bool) returns (r: FileReport)
    ensures r.path == path
    ensures r.isDotenv <==> IsDotenvName(path) && Dotenv.Parse(oldDecoded).Ok? && Dotenv.Parse(newDecoded).Ok?
    ensures r.isDotenv ==> IsDiff(r.entries, VarsOf(oldDecoded), VarsOf(newDecoded), shown) && CountsMatch(r)
    ensures !r.isDotenv ==>
      var gone, come := Missing(Dotenv.Lines(oldLossy), Dotenv.Lines(newLossy)),
                        Missing(Dotenv.Lines(newLossy), Dotenv.Lines(oldLossy));
      && r.removed == |gone| && r.added == |come| && r.modified == 0
      && r.entries == RemovedEntries(gone, shown) + AddedEntries(come, shown)
    ensures !HasChange(r)
            <==> if r.isDotenv then VarsOf(oldDecoded) == VarsOf(newDecoded) else SameLines(oldLossy, newLossy)
  {
    hide *;
    if IsDotenvName(path) {
      var oldVars := Dotenv.ParseDotenvWithLines(oldDecoded);
      var newVars := Dotenv.ParseDotenvWithLines(newDecoded);
      if oldVars.Ok? && newVars.Ok? {
        r := DiffDotenv(path, Dotenv.PairsOf(oldVars.value), Dotenv.PairsOf(newVars.value), shown);
        VarsOfParsed(oldDecoded);
        VarsOfParsed(newDecoded);
        NoChangeMeansSameVars(r, VarsOf(oldDecoded), VarsOf(newDecoded), shown);
        NoChangeCounts(r);
        return;
      }
    }
    r := DiffText(path, oldLossy, newLossy, shown);
    TextUnchangedMeansSameLines(oldLossy, newLossy);
    NoChangeCounts(r);
  }

  lemma {:induction false} VarsOfParsed(decoded: Option<string>)
    requires Dotenv.Parse(decoded).Ok?
    ensures VarsOf(decoded) == LastWins(Dotenv.PairsOf(Dotenv.Parse(decoded).value))
  {
  }

  lemma {:induction false} NoChangeCounts(r: FileReport)
    ensures !HasChange(r) <==> r.added == r.removed == r.modified == 0
  {
  }

  /** By variable, "no changes" does not mean identical either: an edited comment goes unnoticed, though as lines the
      two files differ. */
  lemma {:induction false} CommentUnnoticed()
    ensures var a, b := "#x", "#y";
            && IsDotenvName(".env") && Dotenv.Parse(Some(a)).Ok? && Dotenv.Parse(Some(b)).Ok?
            && VarsOf(Some(a)) == VarsOf(Some(b)) && a != b && !SameLines(a, b)
  {
    CommentLine('x');
    CommentLine('y');
    assert "#x" in Dotenv.Lines("#x") && "#x" !in Dotenv.Lines("#y");
    assert FileName(".env") == ".env" by { EnvName(); }
  }

  lemma {:induction false} CommentLine(c: char)
    requires c != '\n' && !Dotenv.IsSpace(c) && c != Dotenv.BOM
    ensures Dotenv.Lines(['#', c]) == [['#', c]] && Dotenv.Parse(Some(['#', c])) == Ok([])
  {
    var text := ['#', c];
    assert Dotenv.Find(text, '\n') == 2;
    assert Dotenv.Lines(text) == [text];
    Dotenv.TrimTight(text);
    assert Dotenv.ParseLine(text) == Dotenv.Skip;
    hide Dotenv.ParseLine;
    assert Dotenv.ParseLines([text], 0) == Ok([]);
    Dotenv.ParseNext([text], 0);
  }

  lemma {:induction false} EnvName()
    ensures FileName(".env") == ".env"
  {
    var name := ".env";
    assert name[..3][..2] == name[..2] && name[..2][..1] == name[..1] && name[..1][..0] == "";
    assert FileName(name[..1]) == name[..1];
    assert FileName(name[..2]) == name[..2];
    assert FileName(name[..3]) == name[..3];
  }

  function Totals(files: seq<FileReport>): Tally {
    if files == [] then Tally(0, 0, 0)
    else
      var t, f := Totals(files[..|files| - 1]), files[|files| - 1];
      Tally(t.added + f.added, t.removed + f.removed, t.modified + f.modified)
  }

  lemma {:induction false} TotalsZero(files: seq<FileReport>)
    ensures Totals(files) == Tally(0, 0, 0) <==> forall i :: 0 <= i < |files| ==> !HasChange(files[i])
  {
    if files != [] {
      var t := files[..|files| - 1];
      TotalsZero(t);
      assert forall i :: 0 <= i < |t| ==> t[i] == files[i];
    }
  }

  class DiffReport {
    var files: seq<FileReport>
    var totalAdded: nat
    var totalRemoved: nat
    var totalModified: nat

    /** The totals are the sums over the files. */
    ghost predicate Valid()
      reads this
    {
      Totals(files) == Tally(totalAdded, totalRemoved, totalModified)
    }

    constructor ()
      ensures Valid() && files == [] && totalAdded == totalRemoved == totalModified == 0
    {
      files, totalAdded, totalRemoved, totalModified := [], 0, 0, 0;
    }

    method AddFileReport(report: FileReport)
      requires Valid()
      modifies this
      ensures Valid() && files == old(files) + [report]
      ensures totalAdded == old(totalAdded) + report.added && totalRemoved == old(totalRemoved) + report.removed
      ensures totalModified == old(totalModified) + report.modified
    {
      totalAdded := totalAdded + report.added;
      totalRemoved := totalRemoved + report.removed;
      totalModified := totalModified + report.modified;
      assert (files + [report])[..|files|] == files;
      files := files + [report];
    }

    /** Changes are reported exactly when some file has one. */
    method HasChanges() returns (changed: bool)
      requires Valid()
      ensures changed <==> exists i :: 0 <= i < |files| && HasChange(files[i])
    {
      TotalsZero(files);
      changed := totalAdded > 0 || totalRemoved > 0 || totalModified > 0;
    }
  }
}
