// The list of form entries, and the queries that walk it.
module FormLists {
  import opened Bytes
  import opened Forms
  import opened Newlines

  /** strcmp finds no difference. */
  predicate SameString(s: seq<byte>, t: seq<byte>) {
    CStr(s) == CStr(t)
  }

  /** Two blocks of bytes are the same text, byte for byte, up to where both end. */
  lemma SameStringIff(s: seq<byte>, t: seq<byte>)
    ensures SameString(s, t) <==> exists n :: Common(s, t, n)
  {
    var n := |CStr(s)|;
    if SameString(s, t) {
      assert Common(s, t, n);
    }
    if k :| Common(s, t, k) {
      CStrEnds(s, k);
      CStrEnds(t, k);
    }
  }

  ghost predicate Common(s: seq<byte>, t: seq<byte>, n: int) {
    && 0 <= n <= |s| && n <= |t| && s[..n] == t[..n] && NUL !in s[..n]
    && (n == |s| || s[n] == NUL) && (n == |t| || t[n] == NUL)
  }

  lemma CStrEnds(s: seq<byte>, n: nat)
    requires n <= |s| && NUL !in s[..n] && (n == |s| || s[n] == NUL)
    ensures CStr(s) == s[..n]
  {
    if n > 0 {
      assert s[0] == s[..n][0] && s[1..][..n - 1] == s[..n][1..];
      CStrEnds(s[1..], n - 1);
    }
  }

  /** The entries with the given name, in order. */
  function Matches(entries: seq<Entry>, name: seq<byte>): (r: seq<Entry>)
    ensures forall e :: e in r <==> e in entries && SameString(e.attr, name)
  {
    if entries == [] then []
    else
      var rest := Matches(entries[1..], name);
      if SameString(entries[0].attr, name) then [entries[0]] + rest else rest
  }

  lemma MatchesStep(entries: seq<Entry>, i: nat, name: seq<byte>)
    requires i < |entries|
    ensures Matches(entries[i..], name) ==
            (if SameString(entries[i].attr, name) then [entries[i]] else []) + Matches(entries[i + 1..], name)
  {
  }

  lemma {:induction false} MatchesSplit(entries: seq<Entry>, i: nat, name: seq<byte>)
    requires i <= |entries|
    ensures Matches(entries, name) == Matches(entries[..i], name) + Matches(entries[i..], name)
  {
    if i == 0 {
      assert entries[0..] == entries && [] + Matches(entries, name) == Matches(entries, name);
    } else {
      assert entries[..i][1..] == entries[1..][..i - 1] && entries[1..][i - 1..] == entries[i..];
      MatchesSplit(entries[1..], i - 1, name);
      var a, b, c := [entries[0]], Matches(entries[1..][..i - 1], name), Matches(entries[i..], name);
      assert a + (b + c) == (a + b) + c;
    }
  }

  /** The matches are in the order of the list: each comes behind those of the entries
      before it. */
  lemma MatchesAreInOrder(entries: seq<Entry>, i: nat, name: seq<byte>)
    requires i < |entries| && SameString(entries[i].attr, name)
    ensures var k := |Matches(entries[..i], name)|;
            k < |Matches(entries, name)| && Matches(entries, name)[k] == entries[i]
  {
    MatchesSplit(entries, i, name);
    MatchesStep(entries, i, name);
  }

  // ----- names without duplicates

  predicate Named(entries: seq<Entry>, name: seq<byte>) {
    exists i :: 0 <= i < |entries| && SameString(entries[i].attr, name)
  }

  /** The names of the first n entries, each where it occurs first. */
  function Names(entries: seq<Entry>, n: nat): (r: seq<seq<byte>>)
    requires n <= |entries|
  {
    if n == 0 then []
    else if Named(entries[..n - 1], entries[n - 1].attr) then Names(entries, n - 1)
    else Names(entries, n - 1) + [CStr(entries[n - 1].attr)]
  }

  /** Every name is there, and no other. */
  lemma {:induction false} NamesAreComplete(entries: seq<Entry>, n: nat, name: seq<byte>)
    requires n <= |entries| && NUL !in name
    ensures name in Names(entries, n) <==> Named(entries[..n], name)
  {
    if n > 0 {
      var e := entries[n - 1];
      CStrOfNulFree(name);
      assert entries[..n] == entries[..n - 1] + [e];
      NamesAreComplete(entries, n - 1, name);
      assert Named(entries[..n], name) <==> Named(entries[..n - 1], name) || SameString(e.attr, name) by {
        if SameString(e.attr, name) {
          assert SameString(entries[..n][n - 1].attr, name);
        }
        if Named(entries[..n - 1], name) {
          var i :| 0 <= i < n - 1 && SameString(entries[..n - 1][i].attr, name);
          assert SameString(entries[..n][i].attr, name);
        }
      }
    }
  }

  /** No name is there twice. */
  lemma {:induction false} NamesAreDistinct(entries: seq<Entry>, n: nat)
    requires n <= |entries|
    ensures forall i, j :: 0 <= i < j < |Names(entries, n)| ==> Names(entries, n)[i] != Names(entries, n)[j]
  {
    if n > 0 {
      NamesAreDistinct(entries, n - 1);
      var name := CStr(entries[n - 1].attr);
      CStrOfNulFree(name);
      NamesAreComplete(entries, n - 1, name);
      assert Named(entries[..n - 1], name) == Named(entries[..n - 1], entries[n - 1].attr);
    }
  }

  lemma {:induction false} NamesBegin(entries: seq<Entry>, i: nat, n: nat)
    requires i <= n <= |entries|
    ensures Names(entries, i) <= Names(entries, n)
    decreases n
  {
    if i < n {
      NamesBegin(entries, i, n - 1);
    }
  }

  /** The names are in the order in which they occur first. */
  lemma NamesAreInOrder(entries: seq<Entry>, i: nat)
    requires i < |entries| && !Named(entries[..i], entries[i].attr)
    ensures var k, names := |Names(entries, i)|, Names(entries, |entries|);
            k < |names| && names[k] == CStr(entries[i].attr)
  {
    NamesBegin(entries, i + 1, |entries|);
  }

  // ----- choices

  /** The first choice that equals a value; |choices| if none does. */
  function Choice(choices: seq<seq<byte>>, value: seq<byte>): (k: nat)
    ensures k <= |choices|
    ensures k < |choices| ==> SameString(choices[k], value)
    ensures forall i :: 0 <= i < k ==> !SameString(choices[i], value)
  {
    if choices == [] || SameString(choices[0], value) then 0 else 1 + Choice(choices[1..], value)
  }

  /** How many of the entries have a value among the choices. */
  function Hits(entries: seq<Entry>, choices: seq<seq<byte>>): (n: nat)
    ensures n <= |entries|
  {
    if entries == [] then 0
    else (if Choice(choices, entries[0].value) < |choices| then 1 else 0) + Hits(entries[1..], choices)
  }

  /** Each entry counts for itself. */
  lemma {:induction false} HitsAdd(first: seq<Entry>, second: seq<Entry>, choices: seq<seq<byte>>)
    ensures Hits(first + second, choices) == Hits(first, choices) + Hits(second, choices)
  {
    if first == [] {
      assert first + second == second;
    } else {
      assert (first + second)[1..] == first[1..] + second;
      HitsAdd(first[1..], second, choices);
    }
  }

  /** All of them, and none: this is what the result code and the count of invalid
      values come to. */
  lemma {:induction false} HitsIff(entries: seq<Entry>, choices: seq<seq<byte>>)
    ensures Hits(entries, choices) == 0 <==>
            forall i, k :: 0 <= i < |entries| && 0 <= k < |choices| ==> !SameString(choices[k], entries[i].value)
    ensures Hits(entries, choices) == |entries| <==>
            forall i :: 0 <= i < |entries| ==>
              exists k :: 0 <= k < |choices| && SameString(choices[k], entries[i].value)
  {
    if entries != [] {
      HitsIff(entries[1..], choices);
      var k := Choice(choices, entries[0].value);
      assert k < |choices| ==> SameString(choices[k], entries[0].value);
      assert forall i :: 0 < i < |entries| ==> entries[i] == entries[1..][i - 1];
      assert forall i :: 0 <= i < |entries[1..]| ==> entries[1..][i] == entries[i + 1];
    }
  }

  /** The choices that some of the entries pick. */
  function Picks(entries: seq<Entry>, choices: seq<seq<byte>>): set<nat> {
    if entries == [] then {} else {Choice(choices, entries[0].value)} + Picks(entries[1..], choices)
  }

  /** A choice is picked when it is the first to equal the value of some entry. */
  lemma {:induction false} PickedIff(entries: seq<Entry>, choices: seq<seq<byte>>, k: nat)
    ensures k in Picks(entries, choices) <==>
            exists i :: 0 <= i < |entries| && Choice(choices, entries[i].value) == k
  {
    if entries != [] {
      var tail := entries[1..];
      PickedIff(tail, choices, k);
      if k in Picks(tail, choices) {
        var i :| 0 <= i < |tail| && Choice(choices, tail[i].value) == k;
        assert entries[i + 1] == tail[i];
      }
      if i :| 0 < i < |entries| && Choice(choices, entries[i].value) == k {
        assert tail[i - 1] == entries[i];
      }
    }
  }

  /** The values of the entries, with their newlines put right. */
  function Texts(entries: seq<Entry>): seq<seq<byte>> {
    if entries == [] then [] else [Normalise(CStr(entries[0].value), true)] + Texts(entries[1..])
  }

  lemma {:induction false} TextsAre(entries: seq<Entry>)
    ensures |Texts(entries)| == |entries|
    ensures forall i :: 0 <= i < |entries| ==> Texts(entries)[i] == Normalise(CStr(entries[i].value), true)
  {
    if entries != [] {
      TextsAre(entries[1..]);
    }
  }

  datatype QueryResult = QuerySuccess | QueryNotFound

  class FormList {
    /** The list behind cgiFormEntryFirst. */
    const entries: seq<Entry>
    /** The state of a search: the name, and the place of the next entry to look
        at (|entries| stands for the null pointer). */
    var findTarget: seq<byte>
    var findPos: nat

    ghost predicate Valid()
      reads this
    {
      findPos <= |entries|
    }

    /** The matches that the search has not returned yet. */
    ghost function Left(): seq<Entry>
      requires Valid()
      reads this
    {
      Matches(entries[findPos..], findTarget)
    }

    constructor (entries: seq<Entry>)
      ensures Valid() && this.entries == entries
    {
      this.entries := entries;
      findTarget, findPos := [], 0;
    }

    method FindNext() returns (found: Option<Entry>)
      requires Valid()
      modifies this`findPos
      ensures Valid()
      ensures if old(Left()) == [] then found == None && Left() == []
              else found == Some(old(Left())[0]) && Left() == old(Left())[1..]
    {
      while findPos < |entries|
        invariant Valid() && Left() == old(Left())
        decreases |entries| - findPos
      {
        var c := entries[findPos];
        MatchesStep(entries, findPos, findTarget);
        findPos := findPos + 1;
        if SameString(c.attr, findTarget) {
          return Some(c);
        }
      }
      return None;
    }

    method FindFirst(name: seq<byte>) returns (found: Option<Entry>)
      modifies this
      ensures Valid() && findTarget == name
      ensures if Matches(entries, name) == [] then found == None && Left() == []
              else found == Some(Matches(entries, name)[0]) && Left() == Matches(entries, name)[1..]
    {
      findTarget, findPos := name, 0;
      assert entries[0..] == entries;
      found := FindNext();
    }

    /** The entry just found and the matches still to come. */
    ghost function Pending(found: Option<Entry>): seq<Entry>
      requires Valid()
      reads this
    {
      match found
      case None => []
      case Some(e) => [e] + Left()
    }

    /** cgiFormStringMultiple: all values of a field, with their newlines put right. */
    method StringMultiple(name: seq<byte>) returns (values: seq<seq<byte>>, code: QueryResult)
      modifies this
      ensures var m := Matches(entries, name);
              && values == Texts(m)
              && code == if m == [] then QueryNotFound else QuerySuccess
    {
      hide Matches, Normalise, Left;
      ghost var m := Matches(entries, name);
      values, code := [], QueryNotFound;
      var e := Start(name);
      if e.None? {
        return;
      }
      code := QuerySuccess;
      while e.Some?
        invariant Valid() && values + Texts(Pending(e)) == Texts(m)
        decreases |Pending(e)|
      {
        ghost var before, rest := values, Left();
        assert ([e.value] + rest)[1..] == rest;
        var value := EntryStringWithRoom(e.value.value, true);
        values := values + [value];
        e := Continue();
        assert before + ([value] + Texts(rest)) == values + Texts(rest);
      }
      assert values + [] == values;
    }

    method Start(name: seq<byte>) returns (found: Option<Entry>)
      modifies this
      ensures Valid() && Pending(found) == Matches(entries, name)
      ensures found.None? <==> Matches(entries, name) == []
    {
      found := FindFirst(name);
    }

    method Continue() returns (found: Option<Entry>)
      requires Valid()
      modifies this`findPos
      ensures Valid() && Pending(found) == old(Left())
    {
      found := FindNext();
    }

    /** cgiFormSelectMultiple: marks each choice that is the first to equal some
        matching value, and counts the values that equal none. */
    method SelectMultiple(name: seq<byte>, choices: seq<seq<byte>>, result: array<bool>)
      returns (invalid: nat, code: QueryResult)
      requires result.Length == |choices|
      modifies this, result
      ensures var m := Matches(entries, name);
              && (forall k :: 0 <= k < |choices| ==> (result[k] <==> k in Picks(m, choices)))
              && invalid + Hits(m, choices) == |m|
              && code == if Hits(m, choices) == 0 then QueryNotFound else QuerySuccess
    {
      hide Matches, Choice, Left;
      ghost var m := Matches(entries, name);
      for i := 0 to |choices|
        invariant forall k :: 0 <= k < i ==> !result[k]
      {
        result[i] := false;
      }
      invalid := 0;
      var hits: nat := 0;
      var e := Start(name);
      while e.Some?
        invariant Valid()
        invariant forall k :: 0 <= k < |choices| ==>
                    (result[k] || k in Picks(Pending(e), choices) <==> k in Picks(m, choices))
        invariant hits + Hits(Pending(e), choices) == Hits(m, choices)
        invariant invalid + hits + |Pending(e)| == |m|
        decreases |Pending(e)|
      {
        assert ([e.value] + Left())[1..] == Left();
        var i := MatchChoice(choices, e.value.value);
        if i < |choices| {
          result[i] := true;
          hits := hits + 1;
        } else {
          invalid := invalid + 1;
        }
        e := Continue();
      }
      code := if hits > 0 then QuerySuccess else QueryNotFound;
    }

    /** cgiFormEntries: counts the names in one pass, and fills a block of exactly
        that size in another. */
    method FormEntries() returns (names: seq<seq<byte>>)
      ensures names == Names(entries, |entries|)
    {
      var total := 0;
      for e := 0 to |entries|
        invariant total == |Names(entries, e)|
      {
        var again := SeenBefore(e);
        if !again {
          total := total + 1;
        }
      }
      var stringArray := new seq<byte>[total](_ => []);
      var i := 0;
      for e := 0 to |entries|
        invariant i == |Names(entries, e)| && i <= total
        invariant stringArray[..i] == Names(entries, e)
        invariant i + (total - i) == |Names(entries, |entries|)|
      {
        var again := SeenBefore(e);
        NamesGrow(entries, e + 1);
        if !again {
          stringArray[i] := CStr(entries[e].attr);
          i := i + 1;
        }
      }
      names := stringArray[..];
      assert stringArray[..i] == stringArray[..];
    }

    method SeenBefore(e: nat) returns (again: bool)
      requires e < |entries|
      ensures again <==> Named(entries[..e], entries[e].attr)
    {
      for pe := 0 to e
        invariant forall i :: 0 <= i < pe ==> !SameString(entries[i].attr, entries[e].attr)
      {
        if SameString(entries[e].attr, entries[pe].attr) {
          assert SameString(entries[..e][pe].attr, entries[e].attr);
          return true;
        }
      }
      return false;
    }
  }

  lemma {:induction false} NamesGrow(entries: seq<Entry>, n: nat)
    requires n <= |entries|
    ensures |Names(entries, n)| <= |Names(entries, |entries|)|
    decreases |entries| - n
  {
    if n < |entries| {
      NamesGrow(entries, n + 1);
    }
  }

  method MatchChoice(choices: seq<seq<byte>>, value: seq<byte>) returns (k: nat)
    ensures k == Choice(choices, value)
  {
    k := 0;
    while k < |choices|
      invariant k <= |choices| && Choice(choices, value) == k + Choice(choices[k..], value)
    {
      if SameString(choices[k], value) {
        return;
      }
      k := k + 1;
    }
  }
}
