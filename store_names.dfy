/**
 * The store-name registry: a list of store names, kept sorted, into which a
 * name is inserted only when no entry equals it ignoring case.
 *
 * The host's Unicode lower-casing and locale-aware comparison are not
 * modelled; a `Locale` supplies them as a function and a total order.
 */
module StoreNames {
  import opened LocalStorage

  /** Lower-casing and the sort order of the host platform. */
  datatype Locale = Locale(lower: string -> string, leq: (string, string) -> bool)

  /** `leq` is total, antisymmetric and transitive. */
  ghost predicate TotalOrder(leq: (string, string) -> bool) {
    && (forall a, b :: leq(a, b) || leq(b, a))
    && (forall a, b :: leq(a, b) && leq(b, a) ==> a == b)
    && (forall a, b, c :: leq(a, b) && leq(b, c) ==> leq(a, c))
  }

  ghost predicate Sorted(s: seq<string>, leq: (string, string) -> bool) {
    forall i, j :: 0 <= i < j < |s| ==> leq(s[i], s[j])
  }

  /** No two entries are equal ignoring case. */
  ghost predicate NoCaseDuplicates(s: seq<string>, lower: string -> string) {
    forall i, j :: 0 <= i < j < |s| ==> lower(s[i]) != lower(s[j])
  }

  /** Some entry is equal to `name` ignoring case. */
  predicate ExistsIgnoringCase(names: seq<string>, name: string, lower: string -> string) {
    exists i :: 0 <= i < |names| && lower(names[i]) == lower(name)
  }

  /** Insertion of one name in front of the first entry it does not sort after. */
  function Insert(x: string, s: seq<string>, leq: (string, string) -> bool): (r: seq<string>)
    ensures multiset(r) == multiset(s) + multiset{x}
    ensures TotalOrder(leq) && Sorted(s, leq) ==> Sorted(r, leq)
    decreases |s|
  {
    if s == [] || leq(x, s[0]) then
      InsertInFront(x, s, leq);
      [x] + s
    else
      var rest := Insert(x, s[1..], leq);
      InsertBehind(x, s, rest, leq);
      [s[0]] + rest
  }

  lemma InsertInFront(x: string, s: seq<string>, leq: (string, string) -> bool)
    requires s == [] || leq(x, s[0])
    ensures TotalOrder(leq) && Sorted(s, leq) ==> Sorted([x] + s, leq)
  {
  }

  lemma InsertBehind(x: string, s: seq<string>, rest: seq<string>, leq: (string, string) -> bool)
    requires s != [] && !leq(x, s[0])
    requires multiset(rest) == multiset(s[1..]) + multiset{x}
    requires TotalOrder(leq) && Sorted(s[1..], leq) ==> Sorted(rest, leq)
    ensures multiset([s[0]] + rest) == multiset(s) + multiset{x}
    ensures TotalOrder(leq) && Sorted(s, leq) ==> Sorted([s[0]] + rest, leq)
  {
    assert s == [s[0]] + s[1..];
    if TotalOrder(leq) && Sorted(s, leq) {
      forall k | 0 <= k < |rest| ensures leq(s[0], rest[k]) {
        assert rest[k] in multiset(rest);
        if rest[k] != x {
          assert rest[k] in s[1..];
        }
      }
    }
  }

  /** The list sorted under `leq` (the platform's sort is not modelled; see SortedUnique). */
  function Sort(s: seq<string>, leq: (string, string) -> bool): (r: seq<string>)
    ensures multiset(r) == multiset(s)
    ensures TotalOrder(leq) ==> Sorted(r, leq)
    decreases |s|
  {
    if s == [] then []
    else
      assert s == [s[0]] + s[1..];
      Insert(s[0], Sort(s[1..], leq), leq)
  }

  /** The first entry of a sorted list is below every entry of it. */
  lemma FirstIsLeast(s: seq<string>, x: string, leq: (string, string) -> bool)
    requires TotalOrder(leq) && Sorted(s, leq) && x in multiset(s)
    ensures |s| > 0 && leq(s[0], x)
  {
  }

  lemma TailMultiset(s: seq<string>)
    requires |s| > 0
    ensures multiset(s[1..]) == multiset(s) - multiset{s[0]}
  {
    assert s == [s[0]] + s[1..];
  }

  /** Under a total order a list has one sorted arrangement, so any correct sort gives Sort's result. */
  lemma {:induction false} SortedUnique(a: seq<string>, b: seq<string>, leq: (string, string) -> bool)
    requires TotalOrder(leq) && Sorted(a, leq) && Sorted(b, leq)
    requires multiset(a) == multiset(b)
    ensures a == b
    decreases |a|
  {
    if a != [] {
      assert a[0] in multiset(b);
      FirstIsLeast(b, a[0], leq);
      assert b[0] in multiset(a);
      FirstIsLeast(a, b[0], leq);
      assert a[0] == b[0];
      TailMultiset(a);
      TailMultiset(b);
      SortedUnique(a[1..], b[1..], leq);
    } else {
      assert |b| == |multiset(b)| == 0;
    }
  }

  /**
   * The registry after offering `name`: unchanged when an entry equals it
   * ignoring case, otherwise the sorted list of the old entries and `name`.
   */
  function Register(names: seq<string>, name: string, loc: Locale): (r: seq<string>)
    ensures ExistsIgnoringCase(names, name, loc.lower) ==> r == names
    ensures !ExistsIgnoringCase(names, name, loc.lower) ==>
              && |r| == |names| + 1
              && multiset(r) == multiset(names) + multiset{name}
              && (TotalOrder(loc.leq) ==> Sorted(r, loc.leq))
  {
    if ExistsIgnoringCase(names, name, loc.lower) then names
    else
      assert multiset(names + [name]) == multiset(names) + multiset{name};
      Sort(names + [name], loc.leq)
  }

  /** The name is kept in its own casing and every old entry is kept. */
  lemma RegisterKeepsEntries(names: seq<string>, name: string, loc: Locale)
    ensures ExistsIgnoringCase(Register(names, name, loc), name, loc.lower)
    ensures !ExistsIgnoringCase(names, name, loc.lower) ==> name in Register(names, name, loc)
    ensures forall x :: x in names ==> x in Register(names, name, loc)
  {
    var r := Register(names, name, loc);
    if !ExistsIgnoringCase(names, name, loc.lower) {
      assert name in multiset(r);
      var i :| 0 <= i < |r| && r[i] == name;
      forall x | x in names ensures x in r {
        assert x in multiset(names);
        assert x in multiset(r);
      }
    }
  }

  /** Offering the same name twice leaves the list it left the first time. */
  lemma RegisterIdempotent(names: seq<string>, name: string, loc: Locale)
    ensures Register(Register(names, name, loc), name, loc) == Register(names, name, loc)
  {
    RegisterKeepsEntries(names, name, loc);
  }

  /** A list without two entries equal ignoring case puts each entry in it at most once. */
  lemma {:induction false} NoCaseDuplicatesCount(s: seq<string>, lower: string -> string, x: string)
    requires NoCaseDuplicates(s, lower)
    ensures multiset(s)[x] <= 1
    decreases |s|
  {
    if s != [] {
      assert s == [s[0]] + s[1..];
      NoCaseDuplicatesCount(s[1..], lower, x);
      if s[0] == x {
        forall j | 0 <= j < |s| - 1 ensures s[1..][j] != x {
          assert lower(s[0]) != lower(s[j + 1]);
        }
        assert x !in multiset(s[1..]);
      }
    }
  }

  /** Two equal entries at distinct positions make that entry occur at least twice. */
  lemma RepeatCounts(t: seq<string>, i: nat, j: nat)
    requires i < j < |t|
    ensures t[i] == t[j] ==> multiset(t)[t[i]] >= 2
  {
    assert t == t[..j] + t[j..];
    assert t[i] == t[..j][i] && t[j] == t[j..][0];
    assert t[i] in multiset(t[..j]) && t[j] in multiset(t[j..]);
  }

  /** Reordering a list keeps it free of entries equal ignoring case. */
  lemma PermutationKeepsNoCaseDuplicates(s: seq<string>, t: seq<string>, lower: string -> string)
    requires NoCaseDuplicates(s, lower) && multiset(s) == multiset(t)
    ensures NoCaseDuplicates(t, lower)
  {
    forall i, j | 0 <= i < j < |t| ensures lower(t[i]) != lower(t[j]) {
      NoCaseDuplicatesCount(s, lower, t[i]);
      RepeatCounts(t, i, j);
      assert t[i] != t[j];
      assert t[i] in multiset(s) && t[j] in multiset(s);
      var i' :| 0 <= i' < |s| && s[i'] == t[i];
      var j' :| 0 <= j' < |s| && s[j'] == t[j];
      if i' < j' {
        assert lower(s[i']) != lower(s[j']);
      } else {
        assert lower(s[j']) != lower(s[i']);
      }
    }
  }

  /** A registry without entries equal ignoring case stays so after any offer. */
  lemma RegisterKeepsNoCaseDuplicates(names: seq<string>, name: string, loc: Locale)
    requires NoCaseDuplicates(names, loc.lower)
    ensures NoCaseDuplicates(Register(names, name, loc), loc.lower)
  {
    if !ExistsIgnoringCase(names, name, loc.lower) {
      var grown := names + [name];
      assert NoCaseDuplicates(grown, loc.lower) by {
        forall i, j | 0 <= i < j < |grown| ensures loc.lower(grown[i]) != loc.lower(grown[j]) {
          if j == |names| {
            assert grown[i] == names[i] && grown[j] == name;
          } else {
            assert grown[i] == names[i] && grown[j] == names[j];
          }
        }
      }
      PermutationKeepsNoCaseDuplicates(grown, Register(names, name, loc), loc.lower);
    }
  }

  /**
   * The value under 'storeNames' after saving `name`: unreadable data is left
   * as it is (the error is swallowed), a missing list counts as empty, and the
   * registered list is written only when it changed and the write succeeds.
   */
  function SavedNames(item: Item<seq<string>>, name: string, loc: Locale, writeOk: bool): Item<seq<string>>
  {
    match item
    case Absent => if writeOk then Present(Register([], name, loc)) else item
    case Present(names) =>
      if writeOk && !ExistsIgnoringCase(names, name, loc.lower) then Present(Register(names, name, loc)) else item
    case _ => item
  }

  /** Saving twice is saving once, with the write succeeding if either write did. */
  lemma SavedNamesIdempotent(item: Item<seq<string>>, name: string, loc: Locale, first: bool, second: bool)
    ensures SavedNames(SavedNames(item, name, loc, first), name, loc, second) == SavedNames(item, name, loc, first || second)
  {
    match item
    case Absent => RegisterKeepsEntries([], name, loc);
    case Present(names) => RegisterKeepsEntries(names, name, loc);
    case _ =>
  }

  /** Records that a store name has been seen: the body of the app's `saveStoreName`. */
  method SaveStoreName(store: Storage, name: string, loc: Locale, writeOk: bool)
    modifies store
    ensures store.storeNames == SavedNames(old(store.storeNames), name, loc, writeOk)
    ensures store.receipts == old(store.receipts)
  {
    var stores: seq<string>;
    match store.storeNames {
      case Absent => stores := [];
      case Present(names) => stores := names;
      case _ => return;  // parse error or a value without `some`: caught and logged
    }
    var storeExists := ExistsIgnoringCase(stores, name, loc.lower);
    if !storeExists {
      stores := stores + [name];
      stores := Sort(stores, loc.leq);
      if writeOk {
        store.storeNames := Present(stores);
      }
    }
  }
}
