/**
 The participant list of app.js and the two operations that edit it:
 `addParticipant` (trim the input field, ignore empty names and names already
 present, otherwise append and clear the field) and `removeParticipant`
 (`splice(index, 1)`).
 */
module Participants {
  import opened Permutations

  /**
   The characters `String.prototype.trim` strips: the ECMAScript WhiteSpace
   code points (tab, vertical tab, form feed, space, no-break space, the byte
   order mark and the other space separators) and the LineTerminator code
   points (line feed, carriage return, line and paragraph separators).
   */
  predicate IsSpace(c: char) {
    || c == '\t' || c == '\U{000B}' || c == '\U{000C}' || c == ' '
    || c == '\U{00A0}' || c == '\U{FEFF}' || c == '\U{1680}'
    || ('\U{2000}' <= c <= '\U{200A}')
    || c == '\U{202F}' || c == '\U{205F}' || c == '\U{3000}'
    || c == '\n' || c == '\r' || c == '\U{2028}' || c == '\U{2029}'
  }

  predicate AllSpace(s: string) {
    forall i :: 0 <= i < |s| ==> IsSpace(s[i])
  }

  /** Neither end of `s` is a space character. */
  predicate IsTrimmed(s: string) {
    s == [] || (!IsSpace(s[0]) && !IsSpace(s[|s| - 1]))
  }

  /** `s` without its leading space characters. */
  function TrimStart(s: string): (r: string)
    ensures |r| <= |s| && r == s[|s| - |r|..]
    ensures AllSpace(s[..|s| - |r|])
    ensures r == [] || !IsSpace(r[0])
  {
    if s != [] && IsSpace(s[0]) then TrimStart(s[1..]) else s
  }

  /** `s` without its trailing space characters. */
  function TrimEnd(s: string): (r: string)
    ensures |r| <= |s| && r == s[..|r|]
    ensures AllSpace(s[|r|..])
    ensures r == [] || !IsSpace(r[|r| - 1])
  {
    if s != [] && IsSpace(s[|s| - 1]) then TrimEnd(s[..|s| - 1]) else s
  }

  /** Trimming the end of a string that starts with a non-space keeps that start. */
  lemma TrimEndKeepsStart(front: string)
    requires front == [] || !IsSpace(front[0])
    ensures IsTrimmed(TrimEnd(front))
    ensures TrimEnd(front) == [] <==> front == []
  {
  }

  /** The leading spaces cut off by `TrimStart` are all of `s` exactly when `s` is all spaces. */
  lemma TrimStartEmpty(s: string)
    ensures TrimStart(s) == [] <==> AllSpace(s)
  {
    var front := TrimStart(s);
    if front == [] {
      assert s[..|s|] == s;
    }
    if front != [] {
      assert front[0] == s[|s| - |front|];
    }
  }

  /** `TrimEnd` of a suffix cuts out a slice surrounded by spaces. */
  lemma TrimSlice(s: string, a: nat)
    requires a <= |s| && AllSpace(s[..a])
    ensures var r := TrimEnd(s[a..]);
      a + |r| <= |s| && r == s[a..a + |r|] && AllSpace(s[a + |r|..])
  {
  }

  /**
   `String.prototype.trim`: neither end of the result is a space, and it is
   empty exactly when `s` is all spaces (`TrimIsSlice` says which slice it is).
   */
  function Trim(s: string): (r: string)
    ensures IsTrimmed(r)
    ensures r == [] <==> AllSpace(s)
  {
    var front := TrimStart(s);
    TrimEndKeepsStart(front);
    TrimStartEmpty(s);
    TrimEnd(front)
  }

  /** `Trim(s)` is the slice of `s` starting at `a`, with only spaces before and after it. */
  lemma TrimIsSlice(s: string) returns (a: nat)
    ensures a + |Trim(s)| <= |s| && Trim(s) == s[a..a + |Trim(s)|]
    ensures AllSpace(s[..a]) && AllSpace(s[a + |Trim(s)|..])
  {
    a := |s| - |TrimStart(s)|;
    TrimSlice(s, a);
  }

  /** A string whose ends are not spaces is its own trim. */
  lemma TrimmedIsFixed(s: string)
    requires IsTrimmed(s)
    ensures Trim(s) == s
  {
  }

  /** Trimming twice is trimming once. */
  lemma TrimIdempotent(s: string)
    ensures Trim(Trim(s)) == Trim(s)
  {
    TrimmedIsFixed(Trim(s));
  }

  /** The invariant the editor keeps: no duplicate, no empty and no untrimmed names. */
  predicate ValidList(ps: seq<string>) {
    && Distinct(ps)
    && forall i :: 0 <= i < |ps| ==> ps[i] != [] && IsTrimmed(ps[i])
  }

  /** Appending a fresh, non-empty, trimmed name keeps the list valid. */
  lemma AppendKeepsValid(ps: seq<string>, name: string)
    requires ValidList(ps) && name != [] && IsTrimmed(name) && name !in ps
    ensures ValidList(ps + [name])
  {
  }

  /** The list together with the current contents of the name input field. */
  datatype Editor = Editor(participants: seq<string>, field: string)

  /** True when `addParticipant` would append the trimmed field. */
  predicate Accepts(e: Editor) {
    var name := Trim(e.field);
    name != [] && name !in e.participants
  }

  /**
   `addParticipant`: the trimmed field is appended, and the field cleared,
   exactly when it is non-empty and not yet a participant; otherwise nothing
   changes. Existing names keep their places.
   */
  function AddParticipant(e: Editor): (e': Editor)
    ensures |e.participants| <= |e'.participants| <= |e.participants| + 1
    ensures e'.participants[..|e.participants|] == e.participants
    ensures |e'.participants| == |e.participants| + 1 <==> Accepts(e)
    ensures Accepts(e) ==> e'.participants[|e.participants|] == Trim(e.field) && e'.field == []
    ensures !Accepts(e) ==> e' == e
    ensures forall x :: x in e'.participants <==> x in e.participants || (Accepts(e) && x == Trim(e.field))
    ensures ValidList(e.participants) ==> ValidList(e'.participants)
  {
    var name := Trim(e.field);
    if name != [] && name !in e.participants then
      assert ValidList(e.participants) ==> ValidList(e.participants + [name]) by {
        if ValidList(e.participants) {
          AppendKeepsValid(e.participants, name);
        }
      }
      Editor(e.participants + [name], [])
    else
      e
  }

  /**
   The position `Array.prototype.splice` starts at: a negative index counts
   from the end (clamped at 0), a non-negative one is clamped at the length.
   */
  function SpliceStart(len: nat, index: int): (k: nat)
    ensures k <= len
    ensures 0 <= index <= len ==> k == index
    ensures index > len ==> k == len
    ensures index < 0 && len + index >= 0 ==> k == len + index
    ensures len + index < 0 ==> k == 0
  {
    if index < 0 then (if len + index < 0 then 0 else len + index)
    else if index > len then len
    else index
  }

  /**
   `removeParticipant(index)`, that is `participants.splice(index, 1)`: the
   name at the splice position leaves, everything before it stays put and
   everything after it moves up by one; a position past the end removes
   nothing.
   */
  function RemoveParticipant(ps: seq<string>, index: int): (r: seq<string>)
    ensures var k := SpliceStart(|ps|, index);
      && (k == |ps| ==> r == ps)
      && (k < |ps| ==>
            && |r| == |ps| - 1
            && (forall i :: 0 <= i < k ==> r[i] == ps[i])
            && (forall i :: k <= i < |r| ==> r[i] == ps[i + 1])
            && multiset(r) + multiset{ps[k]} == multiset(ps))
    ensures ValidList(ps) ==> ValidList(r)
    ensures ValidList(ps) && SpliceStart(|ps|, index) < |ps| ==> ps[SpliceStart(|ps|, index)] !in r
  {
    var k := SpliceStart(|ps|, index);
    if k < |ps| then
      assert ps == ps[..k] + [ps[k]] + ps[k + 1..];
      var r := ps[..k] + ps[k + 1..];
      assert forall i :: 0 <= i < |r| ==> r[i] == ps[if i < k then i else i + 1];
      r
    else
      ps
  }

  /** Removing the name just added, at its position, restores the list. */
  lemma RemoveUndoesAdd(e: Editor)
    requires Accepts(e)
    ensures RemoveParticipant(AddParticipant(e).participants, |e.participants|) == e.participants
  {
  }

  /** Submitting the same input again right after it was added changes nothing. */
  lemma AddSameNameTwiceIgnored(e: Editor)
    ensures var once := AddParticipant(e);
      AddParticipant(Editor(once.participants, e.field)).participants == once.participants
  {
  }
}
