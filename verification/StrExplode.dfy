/**
 CStrExplode: a splitter that never ends an item at its first character, so empty fields surface as
 items that begin with the separator.  The string is the characters before the terminating NUL.
 */
module StrExplode {
  import opened Bytes

  /** Index of the separator that ends the first item: the first one not at position 0, if any. */
  function Cut(s: string, sep: char, from: nat): (k: nat)
    requires from <= |s|
    ensures from <= k <= |s|
    ensures k < |s| ==> 0 < k && s[k] == sep
    ensures forall i | from <= i < k :: i == 0 || s[i] != sep
    decreases |s| - from
  {
    if from == |s| then from
    else if from != 0 && s[from] == sep then from
    else Cut(s, sep, from + 1)
  }

  /** The items the constructor fills in, in order. */
  function Items(s: string, sep: char): seq<string>
    decreases |s|
  {
    if s == "" then []
    else
      var k := Cut(s, sep, 0);
      if k == |s| then [s] else [s[..k]] + Items(s[k + 1..], sep)
  }

  /** The string ends with a separator that closed an item, so the final segment is empty. */
  predicate EndsClosed(s: string, sep: char)
    decreases |s|
  {
    s != "" &&
    var k := Cut(s, sep, 0);
    k < |s| && (k + 1 == |s| || EndsClosed(s[k + 1..], sep))
  }

  function Join(items: seq<string>, sep: char): string {
    if items == [] then ""
    else if |items| == 1 then items[0]
    else items[0] + [sep] + Join(items[1..], sep)
  }

  /** Rebuild the input from the items and whether a trailing separator was dropped. */
  function Render(items: seq<string>, closed: bool, sep: char): string {
    Join(items, sep) + if closed then [sep] else ""
  }

  predicate IsItem(item: string, sep: char) {
    item != "" && sep !in item[1..]
  }

  ghost predicate WellFormed(items: seq<string>, closed: bool, sep: char) {
    (forall item | item in items :: IsItem(item, sep)) && (closed ==> items != [])
  }

  function Count(s: string, sep: char): nat {
    if s == "" then 0 else (if s[0] == sep then 1 else 0) + Count(s[1..], sep)
  }

  /** Items that carry an empty field in front of them. */
  function Leading(items: seq<string>, sep: char): nat {
    if items == [] then 0
    else (if items[0] != "" && items[0][0] == sep then 1 else 0) + Leading(items[1..], sep)
  }

  // ---- round trip, for every string ----

  lemma {:induction false} SplitThenJoin(s: string, sep: char)
    ensures WellFormed(Items(s, sep), EndsClosed(s, sep), sep)
    ensures Render(Items(s, sep), EndsClosed(s, sep), sep) == s
    decreases |s|
  {
    if s != "" {
      var k := Cut(s, sep, 0);
      if k < |s| {
        var rest := s[k + 1..];
        SplitThenJoin(rest, sep);
        assert s == s[..k] + [sep] + rest;
        if rest == "" {
          assert Join([s[..k]] + [], sep) == s[..k];
        } else {
          JoinCons(s[..k], Items(rest, sep), sep);
        }
      } else {
        assert Join([s], sep) + "" == s;
      }
    }
  }

  lemma JoinCons(item: string, items: seq<string>, sep: char)
    requires items != []
    ensures Join([item] + items, sep) == item + [sep] + Join(items, sep)
  {
    assert ([item] + items)[1..] == items;
  }

  /** An item and the separator behind it come off the front of a string. */
  lemma ItemsCons(item: string, rest: string, sep: char)
    requires IsItem(item, sep)
    ensures var s := item + [sep] + rest;
            && Items(s, sep) == [item] + Items(rest, sep)
            && EndsClosed(s, sep) == (rest == "" || EndsClosed(rest, sep))
  {
    var s := item + [sep] + rest;
    CutAt(item, rest, sep);
    hide Cut, IsItem;
    assert Items(s, sep) == [item] + Items(rest, sep);
  }

  lemma ItemsSingle(item: string, sep: char)
    requires IsItem(item, sep)
    ensures Items(item, sep) == [item] && !EndsClosed(item, sep)
  {
    CutNone(item, sep);
    hide Cut;
  }

  /** Splitting recovers any well-formed item list: the decomposition of a string is unique. */
  lemma {:induction false} JoinThenSplit(items: seq<string>, closed: bool, sep: char)
    requires WellFormed(items, closed, sep)
    ensures var s := Render(items, closed, sep);
            Items(s, sep) == items && EndsClosed(s, sep) == closed
  {
    hide Items, EndsClosed, IsItem;
    if items != [] {
      var item, more, s := items[0], items[1..], Render(items, closed, sep);
      assert item in items && items == [item] + more;
      if more != [] {
        assert forall x | x in more :: x in items;
        JoinThenSplit(more, closed, sep);
        JoinCons(item, more, sep);
        RenderNonempty(more, closed, sep);
        var rest := Render(more, closed, sep);
        assert s == item + [sep] + rest;
        ItemsCons(item, rest, sep);
      } else if closed {
        assert s == item + [sep] + "";
        ItemsCons(item, "", sep);
        EmptyString(sep);
      } else {
        assert s == item;
        ItemsSingle(item, sep);
      }
    } else {
      EmptyString(sep);
    }
  }

  lemma EmptyString(sep: char)
    ensures Items("", sep) == [] && !EndsClosed("", sep)
  {
  }

  lemma RenderNonempty(items: seq<string>, closed: bool, sep: char)
    requires items != [] && WellFormed(items, closed, sep)
    ensures Render(items, closed, sep) != ""
  {
    assert items[0] in items;
  }

  lemma CutAt(item: string, rest: string, sep: char)
    requires IsItem(item, sep)
    ensures var s := item + [sep] + rest; Cut(s, sep, 0) == |item| && s[..|item|] == item && s[|item| + 1..] == rest
  {
    var s := item + [sep] + rest;
    var k := Cut(s, sep, 0);
    assert s[|item|] == sep;
    assert forall i | 0 < i < |item| :: s[i] == item[1..][i - 1];
  }

  lemma CutNone(item: string, sep: char)
    requires IsItem(item, sep)
    ensures Cut(item, sep, 0) == |item|
  {
    assert forall i | 0 < i < |item| :: item[i] == item[1..][i - 1];
  }

  lemma UniqueDecomposition(xs: seq<string>, cx: bool, ys: seq<string>, cy: bool, sep: char)
    requires WellFormed(xs, cx, sep) && WellFormed(ys, cy, sep)
    requires Render(xs, cx, sep) == Render(ys, cy, sep)
    ensures xs == ys && cx == cy
  {
    JoinThenSplit(xs, cx, sep);
    JoinThenSplit(ys, cy, sep);
  }

  // ---- counting the slots ----

  lemma {:induction false} CountConcat(a: string, b: string, sep: char)
    ensures Count(a + b, sep) == Count(a, sep) + Count(b, sep)
  {
    if a == "" {
      assert a + b == b;
    } else {
      assert (a + b)[1..] == a[1..] + b;
      CountConcat(a[1..], b, sep);
    }
  }

  lemma {:induction false} CountNone(s: string, sep: char)
    requires sep !in s
    ensures Count(s, sep) == 0
  {
    if s != "" { CountNone(s[1..], sep); }
  }

  /**
   Slots allocated less slots filled: one per item that begins with the separator, one if the final
   segment is empty.
   */
  lemma {:induction false} SlotsLeftOver(s: string, sep: char)
    ensures 1 + Count(s, sep) - |Items(s, sep)|
         == Leading(Items(s, sep), sep) + if EndsClosed(s, sep) || s == "" then 1 else 0
    decreases |s|
  {
    hide Cut;
    if s != "" {
      hide Count, Leading;
      var k := Cut(s, sep, 0);
      if k < |s| {
        var rest := s[k + 1..];
        SlotsLeftOver(rest, sep);
        SegmentCount(s, k, sep);
        LeadingCons(s[..k], Items(rest, sep), sep);
      } else {
        ItemCount(s, k, sep);
        assert s[..k] == s && [s] == [s] + [];
        LeadingCons(s, [], sep);
      }
    }
  }

  lemma SegmentCount(s: string, k: nat, sep: char)
    requires 0 < k < |s| && s[k] == sep && forall i | 0 < i < k :: s[i] != sep
    ensures Count(s, sep) == (if s[0] == sep then 1 else 0) + 1 + Count(s[k + 1..], sep)
  {
    hide Count;
    ItemCount(s, k, sep);
    var rest := s[k + 1..];
    assert s == s[..k] + ([sep] + rest);
    CountConcat(s[..k], [sep] + rest, sep);
    CountSeparator(rest, sep);
  }

  lemma CountSeparator(rest: string, sep: char)
    ensures Count([sep] + rest, sep) == 1 + Count(rest, sep)
  {
    assert ([sep] + rest)[1..] == rest;
  }

  lemma LeadingCons(item: string, items: seq<string>, sep: char)
    requires item != ""
    ensures Leading([item] + items, sep) == (if item[0] == sep then 1 else 0) + Leading(items, sep)
    ensures Leading([], sep) == 0
  {
    assert ([item] + items)[1..] == items;
  }

  lemma ItemCount(s: string, k: nat, sep: char)
    requires 0 < k <= |s| && forall i | 0 < i < k :: s[i] != sep
    ensures Count(s[..k], sep) == if s[0] == sep then 1 else 0
  {
    assert s[..k][1..] == s[1..k];
    CountNone(s[1..k], sep);
  }

  /** The string is not empty, does not begin or end with the separator, and has no two in a row. */
  predicate NoEmptyField(s: string, sep: char) {
    && s != "" && s[0] != sep && s[|s| - 1] != sep
    && forall i | 0 <= i < |s| - 1 :: s[i] != sep || s[i + 1] != sep
  }

  lemma NoEmptyFieldTail(s: string, k: nat, sep: char)
    requires 0 < k < |s| - 1 && s[k] == sep && forall i | 0 < i < k :: s[i] != sep
    ensures NoEmptyField(s, sep) <==> s[0] != sep && NoEmptyField(s[k + 1..], sep)
  {
    var rest := s[k + 1..];
    assert forall i | k < i < |s| :: s[i] == rest[i - k - 1];
    if s[0] != sep && NoEmptyField(rest, sep) {
      forall i | 0 <= i < |s| - 1 ensures s[i] != sep || s[i + 1] != sep {
        assert i > k ==> rest[i - k - 1] != sep || rest[i - k] != sep;
      }
    }
    if NoEmptyField(s, sep) {
      forall i | 0 <= i < |rest| - 1 ensures rest[i] != sep || rest[i + 1] != sep {
        assert s[i + k + 1] != sep || s[i + k + 2] != sep;
      }
    }
  }

  lemma {:induction false} LeadingOrClosed(s: string, sep: char)
    requires s != ""
    ensures NoEmptyField(s, sep) <==> Leading(Items(s, sep), sep) == 0 && !EndsClosed(s, sep)
    decreases |s|
  {
    hide Cut, Leading;
    var k := Cut(s, sep, 0);
    if k == |s| {
      assert [s] == [s] + [];
      LeadingCons(s, [], sep);
    } else {
      var rest := s[k + 1..];
      LeadingCons(s[..k], Items(rest, sep), sep);
      if rest != "" {
        hide NoEmptyField;
        NoEmptyFieldTail(s, k, sep);
        LeadingOrClosed(rest, sep);
      }
    }
  }

  /**
   Every slot the destructor frees has been filled exactly when the string is not empty, neither begins
   nor ends with the separator and never has two separators in a row.
   */
  lemma AllSlotsFilledIff(s: string, sep: char)
    ensures |Items(s, sep)| == 1 + Count(s, sep) <==> NoEmptyField(s, sep)
  {
    SlotsLeftOver(s, sep);
    if s != "" {
      LeadingOrClosed(s, sep);
    }
  }

  /** One empty field in the middle: three slots, and the third is never assigned. */
  lemma EmptyFieldLeavesSlot()
    ensures Items("a,,b", ',') == ["a", ",b"] && 1 + Count("a,,b", ',') == 3
  {
    var s := "a,,b";
    assert s == "a" + [','] + ",b";
    CutAt("a", ",b", ',');
    CutNone(",b", ',');
    assert s[1..] == ",,b" && s[1..][1..] == ",b" && s[2..][1..] == "b" && ",b"[1..] == "b" && "b"[1..] == "";
    assert Count("b", ',') == 0;
    assert Count(",b", ',') == 1;
    assert Count(",,b", ',') == 2;
  }

  // ---- the class ----

  class Explode {
    var itemCnt: nat
    /** None is a slot the constructor never assigns. */
    var itemList: array<Option<string>>

    constructor (str: string, separator: char)
      ensures itemCnt == itemList.Length == 1 + Count(str, separator)
      ensures |Items(str, separator)| <= itemCnt
      ensures forall i | 0 <= i < |Items(str, separator)| :: itemList[i] == Some(Items(str, separator)[i])
      ensures forall i | |Items(str, separator)| <= i < itemCnt :: itemList[i] == None
      ensures (forall i | 0 <= i < itemCnt :: itemList[i].Some?) <==> NoEmptyField(str, separator)
    {
      var n := CountSlots(str, separator);
      itemCnt := n;
      SlotsLeftOver(str, separator);
      AllSlotsFilledIff(str, separator);
      var list := new Option<string>[n](_ => None);
      FillSlots(list, str, separator);
      itemList := list;
      ghost var filled := |Items(str, separator)|;
      new;
      assert filled < itemCnt ==> itemList[filled] == None;
    }
  }

  /** First pass of the constructor. */
  method CountSlots(str: string, separator: char) returns (n: nat)
    ensures n == 1 + Count(str, separator)
  {
    n := 1;
    var pos := 0;
    assert str[0..] == str;
    while pos < |str|
      invariant 0 <= pos <= |str|
      invariant n + Count(str[pos..], separator) == 1 + Count(str, separator)
    {
      if str[pos] == separator {
        n := n + 1;
      }
      assert str[pos..][1..] == str[pos + 1..];
      pos := pos + 1;
    }
  }

  /** Second pass of the constructor: no store is out of bounds and no slot is stored twice. */
  method FillSlots(list: array<Option<string>>, str: string, separator: char)
    requires |Items(str, separator)| <= list.Length
    requires forall i | 0 <= i < list.Length :: list[i] == None
    modifies list
    ensures forall i | 0 <= i < |Items(str, separator)| :: list[i] == Some(Items(str, separator)[i])
    ensures forall i | |Items(str, separator)| <= i < list.Length :: list[i] == None
  {
    hide Items;
    ghost var all := Items(str, separator);
    var idx, start, pos := 0, 0, 0;
    assert str[0..] == str;
    while pos < |str|
      invariant 0 <= start <= pos <= |str|
      invariant 0 <= idx <= |all| && all[idx..] == Items(str[start..], separator)
      invariant forall i | 0 <= i < idx :: list[i] == Some(all[i])
      invariant forall i | idx <= i < list.Length :: list[i] == None
      invariant Cut(str[start..], separator, 0) == Cut(str[start..], separator, pos - start)
    {
      if pos != start && str[pos] == separator {
        var len := pos - start;
        ItemsStep(str, start, len, separator);
        assert all[idx..][0] == str[start..start + len] && all[idx..][1..] == all[idx + 1..];
        list[idx] := Some(str[start..start + len]);
        idx := idx + 1;
        start := pos + 1;
      }
      pos := pos + 1;
    }
    var len := pos - start;
    if len != 0 {
      ItemsLast(str[start..], separator);
      assert str[start..start + len] == str[start..] == all[idx..][0];
      list[idx] := Some(str[start..start + len]);
    } else {
      ItemsLast(str[start..], separator);
      assert all[idx..] == [];
    }
  }

  lemma ItemsStep(str: string, start: nat, len: nat, sep: char)
    requires 0 < len && start + len < |str| && str[start + len] == sep
    requires Cut(str[start..], sep, 0) == Cut(str[start..], sep, len)
    ensures Items(str[start..], sep) == [str[start..start + len]] + Items(str[start + len + 1..], sep)
  {
    assert str[start..][..len] == str[start..start + len];
    assert str[start..][len + 1..] == str[start + len + 1..];
  }

  lemma ItemsLast(s: string, sep: char)
    requires Cut(s, sep, 0) == |s|
    ensures Items(s, sep) == if s == "" then [] else [s]
  {
  }
}
