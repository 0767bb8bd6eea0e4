/** The list of e-mail recipients kept by App.tsx (`handleAddEmail`,
    `handleRemoveEmail`): addresses are checked against the pattern
    `^[^\s@]+@[^\s@]+\.[^\s@]+$`, lower-cased, and appended unless already
    present; removal keeps every other address in order. */
module Recipients {

  /** The characters that JavaScript's `\s` and `String.prototype.trim` treat
      as white space. */
  predicate IsSpace(c: char)
  {
    || c == ' ' || c == '\t' || c == '\n' || c == '\r' || c == '\U{0B}' || c == '\U{0C}'
    || c == '\U{A0}' || c == '\U{1680}' || ('\U{2000}' <= c <= '\U{200A}')
    || c == '\U{2028}' || c == '\U{2029}' || c == '\U{202F}' || c == '\U{205F}'
    || c == '\U{3000}' || c == '\U{FEFF}'
  }

  /** `s.trim() === ''`: nothing but white space. */
  predicate Blank(s: string)
    ensures s == [] ==> Blank(s)
    ensures Blank(s) ==> '@' !in s && '.' !in s
  {
    forall i :: 0 <= i < |s| ==> IsSpace(s[i])
  }

  /** The address pattern: a non-empty part before the only `@`, and after it
      a non-empty part, a `.`, and a non-empty part; no white space anywhere.
      The parts around the `.` may themselves contain dots. */
  predicate EmailShape(s: string)
    ensures EmailShape(s) ==> |s| >= 5 && '@' in s && '.' in s
  {
    exists at, dot ::
      && 0 < at && at + 1 < dot && dot + 1 < |s|
      && s[at] == '@' && s[dot] == '.'
      && (forall i :: 0 <= i < |s| ==> !IsSpace(s[i]) && (s[i] == '@' ==> i == at))
  }

  /** Lower-casing of one character (ASCII letters only). */
  function LowerChar(c: char): char
  {
    if 'A' <= c <= 'Z' then (c as int + 32) as char else c
  }

  /** `toLowerCase`, character by character. */
  function Lower(s: string): (r: string)
    ensures |r| == |s|
    ensures forall i :: 0 <= i < |s| ==> r[i] == LowerChar(s[i])
  {
    seq(|s|, i requires 0 <= i < |s| => LowerChar(s[i]))
  }

  /** A valid address is never blank, so the blank check only chooses the
      message shown. */
  lemma ShapedIsNotBlank(s: string)
    ensures EmailShape(s) ==> !Blank(s)
  {
    if !EmailShape(s) { return; }
    var at, dot :| 0 < at && at + 1 < dot && dot + 1 < |s| && s[at] == '@' && s[dot] == '.'
      && (forall i :: 0 <= i < |s| ==> !IsSpace(s[i]) && (s[i] == '@' ==> i == at));
    assert !IsSpace(s[0]);
  }

  /** Lower-casing an address keeps it an address. */
  lemma LowerKeepsShape(s: string)
    requires EmailShape(s)
    ensures EmailShape(Lower(s))
  {
    var at, dot :| 0 < at && at + 1 < dot && dot + 1 < |s| && s[at] == '@' && s[dot] == '.'
      && (forall i :: 0 <= i < |s| ==> !IsSpace(s[i]) && (s[i] == '@' ==> i == at));
    var l := Lower(s);
    assert l[at] == '@' && l[dot] == '.';
    forall i | 0 <= i < |l| ensures !IsSpace(l[i]) && (l[i] == '@' ==> i == at) {
      assert l[i] == LowerChar(s[i]);
    }
  }

  /** Lower-casing twice is lower-casing once. */
  lemma LowerIdempotent(s: string)
    ensures Lower(Lower(s)) == Lower(s)
  {
    var l := Lower(s);
    forall i | 0 <= i < |s| ensures Lower(l)[i] == l[i] {
      assert l[i] == LowerChar(s[i]);
    }
  }

  /** The invariant of the list: every entry is a lower-case address and no
      address appears twice. */
  predicate Normalized(list: seq<string>)
  {
    && (forall i :: 0 <= i < |list| ==> Lower(list[i]) == list[i] && EmailShape(list[i]))
    && (forall i, j :: 0 <= i < j < |list| ==> list[i] != list[j])
  }

  datatype AddError = EmptyAddress | InvalidAddress | AlreadyListed

  datatype AddResult = Added(list: seq<string>) | Rejected(error: AddError)

  /** `handleAddEmail`: blank input, then the pattern (tested on the input as
      typed), then the lower-cased duplicate check; otherwise the lower-cased
      address is appended. */
  function Add(list: seq<string>, input: string): (r: AddResult)
    ensures r == Rejected(EmptyAddress) <==> Blank(input)
    ensures r == Rejected(InvalidAddress) <==> !Blank(input) && !EmailShape(input)
    ensures r == Rejected(AlreadyListed) <==> EmailShape(input) && Lower(input) in list
    ensures r.Added? <==> EmailShape(input) && Lower(input) !in list
    ensures r.Added? ==> r.list == list + [Lower(input)]
  {
    ShapedIsNotBlank(input);
    if Blank(input) then Rejected(EmptyAddress)
    else if !EmailShape(input) then Rejected(InvalidAddress)
    else if Lower(input) in list then Rejected(AlreadyListed)
    else Added(list + [Lower(input)])
  }

  /** `handleRemoveEmail`: keeps, in order, the entries that differ from `e`. */
  function Remove(list: seq<string>, e: string): (r: seq<string>)
    ensures forall x :: x in r <==> x in list && x != e
  {
    if list == [] then []
    else
      (if list[0] == e then [] else [list[0]]) + Remove(list[1..], e)
  }

  /** Removal drops every occurrence of `e` and keeps every other entry as
      often as it occurs. */
  lemma {:induction false} RemoveCounts(list: seq<string>, e: string)
    ensures multiset(Remove(list, e)) == multiset(list)[e := 0]
  {
    if list != [] {
      RemoveCounts(list[1..], e);
      assert list == [list[0]] + list[1..];
    }
  }

  /** Removal works entry by entry, so it keeps the relative order. */
  lemma {:induction false} RemoveConcat(a: seq<string>, b: seq<string>, e: string)
    ensures Remove(a + b, e) == Remove(a, e) + Remove(b, e)
  {
    if a == [] {
      assert a + b == b;
    } else {
      assert (a + b)[0] == a[0];
      assert (a + b)[1..] == a[1..] + b;
      RemoveConcat(a[1..], b, e);
      var h := if a[0] == e then [] else [a[0]];
      assert Remove(a + b, e) == h + Remove(a[1..] + b, e);
      assert Remove(a, e) == h + Remove(a[1..], e);
      var x, y := Remove(a[1..], e), Remove(b, e);
      assert h + (x + y) == (h + x) + y;
    }
  }

  lemma {:induction false} RemoveAbsent(list: seq<string>, e: string)
    requires e !in list
    ensures Remove(list, e) == list
  {
    if list != [] {
      RemoveAbsent(list[1..], e);
    }
  }

  /** Adding keeps the list normalized. */
  lemma AddKeepsNormalized(list: seq<string>, input: string)
    requires Normalized(list)
    requires Add(list, input).Added?
    ensures Normalized(Add(list, input).list)
  {
    LowerKeepsShape(input);
    LowerIdempotent(input);
  }

  lemma NormalizedCons(x: string, rest: seq<string>)
    requires Normalized(rest) && Lower(x) == x && EmailShape(x) && x !in rest
    ensures Normalized([x] + rest)
  {
    var l := [x] + rest;
    forall i, j | 0 <= i < j < |l| ensures l[i] != l[j] {
      assert l[j] == rest[j - 1];
      if i > 0 {
        assert l[i] == rest[i - 1];
      }
    }
  }

  lemma {:induction false} NormalizedTail(list: seq<string>)
    requires Normalized(list) && list != []
    ensures Normalized(list[1..]) && list[0] !in list[1..]
    ensures Lower(list[0]) == list[0] && EmailShape(list[0])
  {
    var t := list[1..];
    forall i, j | 0 <= i < j < |t| ensures t[i] != t[j] {
      assert t[i] == list[i + 1] && t[j] == list[j + 1];
    }
    forall j | 0 <= j < |t| ensures t[j] != list[0] {
      assert t[j] == list[j + 1];
    }
  }

  /** Removing keeps the list normalized. */
  lemma {:induction false} RemoveKeepsNormalized(list: seq<string>, e: string)
    requires Normalized(list)
    ensures Normalized(Remove(list, e))
  {
    if list != [] {
      NormalizedTail(list);
      RemoveKeepsNormalized(list[1..], e);
      var rest := Remove(list[1..], e);
      if list[0] != e {
        NormalizedCons(list[0], rest);
      }
    }
  }

  /** Removing the address that was just added gives back the list before. */
  lemma RemoveUndoesAdd(list: seq<string>, input: string)
    requires Add(list, input).Added?
    ensures Remove(Add(list, input).list, Lower(input)) == list
  {
    RemoveConcat(list, [Lower(input)], Lower(input));
    RemoveAbsent(list, Lower(input));
    assert Remove([Lower(input)], Lower(input)) == [];
  }

  /** In a normalized list an address occurs at most once, so removing a
      listed address shortens the list by exactly one. */
  lemma {:induction false} RemoveListedShortens(list: seq<string>, e: string)
    requires Normalized(list) && e in list
    ensures |Remove(list, e)| == |list| - 1
  {
    if list[0] == e {
      assert e !in list[1..];
      RemoveAbsent(list[1..], e);
    } else {
      RemoveListedShortens(list[1..], e);
    }
  }
}
