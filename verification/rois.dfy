/**
 * rois.py: the list model that holds the regions of interest drawn on an image.
 * Each entry pairs the name shown in the list with the region itself; names are
 * kept unique by suffixing `_1`, `_2`, ... to a name already in use, and a flag
 * records unsaved changes.
 */
module Rois {
  import opened Outcomes
  import opened Tables

  /** A region of interest: `id` stands for the object's identity, `name` for its name. */
  datatype Roi = Roi(id: nat, name: string)

  /** One list entry: the name used for display and sorting, and the region. */
  datatype Entry = Entry(name: string, roi: Roi)

  /** A Qt model index: invalid, or pointing at a row. */
  datatype ModelIndex = Invalid | Index(row: int)

  /** What `removeRow` does: return a boolean, or raise `IndexError` from `list.pop`. */
  datatype Removal = Returned(removed: bool) | IndexError

  function Digit(d: nat): char
    requires d < 10
  {
    "0123456789"[d]
  }

  /** `str(n)` for a natural number: its decimal digits, most significant first. */
  function Decimal(n: nat): (s: string)
    ensures |s| >= 1
  {
    if n < 10 then [Digit(n)] else Decimal(n / 10) + [Digit(n % 10)]
  }

  /** `'{}_{}'.format(name, n)`. */
  function Suffixed(name: string, n: nat): (s: string)
    ensures |s| > |name| + 1 && s[..|name|] == name && s[|name|] == '_'
  {
    name + "_" + Decimal(n)
  }

  lemma DigitInjective(a: nat, b: nat)
    requires a < 10 && b < 10 && Digit(a) == Digit(b)
    ensures a == b
  {
  }

  /** Different numbers have different decimal forms. */
  lemma {:induction false} DecimalInjective(a: nat, b: nat)
    requires Decimal(a) == Decimal(b)
    ensures a == b
    decreases a
  {
    if a < 10 && b < 10 {
      DigitInjective(a, b);
    } else if 10 <= a && 10 <= b {
      var sa, sb := Decimal(a / 10), Decimal(b / 10);
      assert sa + [Digit(a % 10)] == sb + [Digit(b % 10)];
      assert |sa| == |sb|;
      assert sa == (sa + [Digit(a % 10)])[..|sa|];
      assert sb == (sb + [Digit(b % 10)])[..|sb|];
      DecimalInjective(a / 10, b / 10);
      DigitInjective(a % 10, b % 10);
    } else {
      assert false;
    }
  }

  /** The suffixed names of one base name are pairwise different. */
  lemma SuffixedInjective(name: string, a: nat, b: nat)
    requires Suffixed(name, a) == Suffixed(name, b)
    ensures a == b
  {
    assert Decimal(a) == Suffixed(name, a)[|name| + 1..];
    assert Decimal(b) == Suffixed(name, b)[|name| + 1..];
    DecimalInjective(a, b);
  }

  /** The base name and its first `c` suffixed forms. */
  function Candidates(name: string, c: nat): set<string>
  {
    if c == 0 then {name} else Candidates(name, c - 1) + {Suffixed(name, c)}
  }

  /** A suffixed form with a larger number is not among the earlier candidates. */
  lemma {:induction false} CandidatesFresh(name: string, c: nat, n: nat)
    requires c < n
    ensures Suffixed(name, n) !in Candidates(name, c)
  {
    if c > 0 {
      CandidatesFresh(name, c - 1, n);
      if Suffixed(name, c) == Suffixed(name, n) {
        SuffixedInjective(name, c, n);
      }
    }
  }

  lemma {:induction false} CandidatesSize(name: string, c: nat)
    ensures |Candidates(name, c)| == c + 1
  {
    if c > 0 {
      CandidatesSize(name, c - 1);
      CandidatesFresh(name, c - 1, c);
    }
  }

  /** If the base name and its first `c` suffixed forms are in use, so are all candidates. */
  lemma {:induction false} CandidatesInUse(names: seq<string>, name: string, c: nat)
    requires name in names
    requires forall k | 1 <= k <= c :: Suffixed(name, k) in names
    ensures Candidates(name, c) <= set x | x in names
  {
    if c > 0 {
      CandidatesInUse(names, name, c - 1);
    }
  }

  lemma {:induction false} ElementsSize(names: seq<string>)
    ensures |set x | x in names| <= |names|
  {
    if names != [] {
      ElementsSize(names[1..]);
      assert (set x | x in names) == (set x | x in names[1..]) + {names[0]};
    }
  }

  /**
   * A list of names that holds a base name and its first `c` suffixed forms has
   * more than `c` entries: the search for a free suffix ends.
   */
  lemma CandidatesBound(names: seq<string>, name: string, c: nat)
    requires name in names
    requires forall k | 1 <= k <= c :: Suffixed(name, k) in names
    ensures c < |names|
  {
    CandidatesSize(name, c);
    ElementsSize(names);
    CandidatesInUse(names, name, c);
    SubsetSize(Candidates(name, c), set x | x in names);
  }

  lemma SubsetSize<T>(a: set<T>, b: set<T>)
    requires a <= b
    ensures |a| <= |b|
  {
    assert b == a + (b - a);
  }

  /**
   * `r` is what `get_unique_name` returns for `name` given the names in use:
   * `name` itself when free, otherwise `name_n` for the least `n >= 1` that is free.
   */
  ghost predicate IsUniqueName(names: seq<string>, name: string, r: string)
  {
    if name !in names then r == name
    else exists n: nat ::
      (1 <= n && r == Suffixed(name, n) && r !in names
       && forall k | 1 <= k < n :: Suffixed(name, k) in names)
  }

  /** The unique name is determined by the names in use, and is not one of them. */
  lemma UniqueNameDeterminate(names: seq<string>, name: string, r1: string, r2: string)
    requires IsUniqueName(names, name, r1) && IsUniqueName(names, name, r2)
    ensures r1 == r2 && r1 !in names
  {
    if name in names {
      var n1: nat :| 1 <= n1 && r1 == Suffixed(name, n1) && r1 !in names
        && forall k | 1 <= k < n1 :: Suffixed(name, k) in names;
      var n2: nat :| 1 <= n2 && r2 == Suffixed(name, n2) && r2 !in names
        && forall k | 1 <= k < n2 :: Suffixed(name, k) in names;
      assert !(n1 < n2) && !(n2 < n1);
    }
  }

  /**
   * Asking for a name already in use never returns it: renaming an entry to the
   * name it already has gives it `name_1` (or a later suffix).
   */
  lemma NameInUseIsSuffixed(names: seq<string>, name: string, r: string)
    requires name in names && IsUniqueName(names, name, r)
    ensures r != name
    ensures Suffixed(name, 1) !in names ==> r == Suffixed(name, 1)
  {
    var n: nat :| 1 <= n && r == Suffixed(name, n) && r !in names
      && forall k | 1 <= k < n :: Suffixed(name, k) in names;
    if Suffixed(name, 1) !in names {
      assert n == 1;
    }
  }

  function NamesOf(entries: seq<Entry>): (names: seq<string>)
    ensures |names| == |entries|
  {
    seq(|entries|, i requires 0 <= i < |entries| => entries[i].name)
  }

  /** `list.pop(position)`: the index removed, or `None` for `IndexError`. */
  function PopIndex(length: nat, position: int): (j: Option<nat>)
    ensures j.Some? <==> -(length as int) <= position < length
    ensures j.Some? ==> j.value < length
    ensures j.Some? && position >= 0 ==> j.value == position
    ensures j.Some? && position < 0 ==> j.value == length + position
  {
    if 0 <= position < length then Some(position)
    else if -(length as int) <= position < 0 then Some(length + position)
    else None
  }

  class RoiListModel {
    /** `_rois`: the entries in display order. */
    var entries: seq<Entry>
    /** `is_dirty`: whether there are unsaved changes. */
    var isDirty: bool

    /** Names are unique, and each entry's name is its region's name. */
    ghost predicate Valid()
      reads this
    {
      && Distinct(NamesOf(entries))
      && forall i | 0 <= i < |entries| :: entries[i].name == entries[i].roi.name
    }

    constructor()
      ensures Valid() && entries == [] && !isDirty
    {
      entries := [];
      isDirty := false;
    }

    /** Pops every entry (removing its polygon from the figure), then marks the model clean. */
    method Clear()
      modifies this
      ensures Valid() && entries == [] && !isDirty
    {
      while |entries| > 0
        invariant entries == old(entries)[..|entries|]
        decreases |entries|
      {
        entries := entries[..|entries| - 1];
      }
      entries := [];
      isDirty := false;
    }

    /** `get_unique_name`: `name` if no entry uses it, else `name_n` for the first free `n`. */
    method GetUniqueName(name: string) returns (r: string)
      ensures IsUniqueName(NamesOf(entries), name, r)
    {
      var names := NamesOf(entries);
      if name !in names {
        return name;
      }
      var newName := name;
      var n := 1;
      while newName in names
        invariant 1 <= n
        invariant n == 1 ==> newName == name
        invariant n > 1 ==> newName == Suffixed(name, n - 1)
        invariant forall k | 1 <= k < n - 1 :: Suffixed(name, k) in names
        decreases |names| + 1 - n
      {
        CandidatesBound(names, name, n - 1);
        newName := Suffixed(name, n);
        n := n + 1;
      }
      assert forall k | 1 <= k < n - 1 :: Suffixed(name, k) in names;
      return newName;
    }

    /**
     * `insertRow`: gives the region a unique name, appends it, marks the model
     * dirty and returns the renamed region.
     */
    method InsertRow(roi: Roi) returns (r: Roi)
      requires Valid()
      modifies this
      ensures Valid()
      ensures r == roi.(name := r.name) && IsUniqueName(old(NamesOf(entries)), roi.name, r.name)
      ensures entries == old(entries) + [Entry(r.name, r)] && isDirty
    {
      var name := GetUniqueName(roi.name);
      UniqueNameDeterminate(NamesOf(entries), roi.name, name, name);
      r := roi.(name := name);
      entries := entries + [Entry(name, r)];
      isDirty := true;
      assert NamesOf(entries) == old(NamesOf(entries)) + [name];
    }

    /**
     * `setData`: renames the entry at a valid row to a unique form of a non-empty
     * `value`; any other request changes nothing and returns false.
     */
    method SetData(index: ModelIndex, value: string) returns (ok: bool)
      requires Valid()
      modifies this
      ensures Valid()
      ensures ok <==> index.Index? && 0 <= index.row < |old(entries)| && |value| > 0
      ensures !ok ==> entries == old(entries) && isDirty == old(isDirty)
      ensures ok ==> isDirty && |entries| == |old(entries)|
      ensures ok ==> IsUniqueName(old(NamesOf(entries)), value, entries[index.row].name)
      ensures ok ==> entries == old(entries)[index.row :=
        Entry(entries[index.row].name, old(entries)[index.row].roi.(name := entries[index.row].name))]
    {
      if index.Index? && 0 <= index.row < |entries| {
        if |value| == 0 {
          return false;
        }
        var name := GetUniqueName(value);
        UniqueNameDeterminate(NamesOf(entries), value, name, name);
        var item := entries[index.row];
        entries := entries[index.row := Entry(name, item.roi.(name := name))];
        isDirty := true;
        assert NamesOf(entries) == old(NamesOf(entries))[index.row := name];
        return true;
      }
      return false;
    }

    /**
     * `removeRow`: false on an empty list; otherwise `list.pop(position)`, which
     * accepts negative positions and raises `IndexError` out of range.
     */
    method RemoveRow(position: int) returns (r: Removal)
      requires Valid()
      modifies this
      ensures Valid()
      ensures old(entries) == [] ==> r == Returned(false)
      ensures r != Returned(true) ==> entries == old(entries) && isDirty == old(isDirty)
      ensures old(entries) != [] && PopIndex(|old(entries)|, position).None? ==> r == IndexError
      ensures old(entries) != [] && PopIndex(|old(entries)|, position).Some? ==>
        var j := PopIndex(|old(entries)|, position).value;
        r == Returned(true) && isDirty && entries == old(entries)[..j] + old(entries)[j + 1..]
    {
      if |entries| == 0 {
        return Returned(false);
      }
      match PopIndex(|entries|, position)
      case None =>
        return IndexError;
      case Some(j) =>
        entries := entries[..j] + entries[j + 1..];
        isDirty := true;
        assert NamesOf(entries) == old(NamesOf(entries))[..j] + old(NamesOf(entries))[j + 1..];
        return Returned(true);
    }
  }
}
