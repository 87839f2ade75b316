/**
 The saved-calculation history: a newest-first list of named records kept in
 the page's session. The user's typed name, confirmation answers, the record
 id and the save time are parameters.
 */
module History {
  import opened Options
  import opened Calendar
  import opened Clock
  import opened Page

  predicate HasId(h: seq<Record>, id: int) {
    exists k :: 0 <= k < |h| && h[k].id == id
  }

  /** No two records share an id. */
  predicate DistinctIds(h: seq<Record>) {
    forall i, j :: 0 <= i < j < |h| ==> h[i].id != h[j].id
  }

  /** What `String.prototype.trim` strips: white space and line terminators. */
  predicate IsSpace(c: char) {
    c == '\t' || c == '\n' || c == '\U{000B}' || c == '\U{000C}' || c == '\r' || c == ' '
    || c == '\U{00A0}' || c == '\U{1680}' || ('\U{2000}' <= c <= '\U{200A}')
    || c == '\U{2028}' || c == '\U{2029}' || c == '\U{202F}' || c == '\U{205F}'
    || c == '\U{3000}' || c == '\U{FEFF}'
  }

  /** How many white-space characters `s` starts with: all of them are white space, the next one is not. */
  function LeadingSpace(s: string): (n: nat)
    ensures n <= |s|
    ensures forall k :: 0 <= k < n ==> IsSpace(s[k])
    ensures n < |s| ==> !IsSpace(s[n])
  {
    if s != [] && IsSpace(s[0]) then 1 + LeadingSpace(s[1..]) else 0
  }

  /** How many white-space characters `s` ends with: all of them are white space, the one before is not. */
  function TrailingSpace(s: string): (n: nat)
    ensures n <= |s|
    ensures forall k :: |s| - n <= k < |s| ==> IsSpace(s[k])
    ensures n < |s| ==> !IsSpace(s[|s| - n - 1])
  {
    if s != [] && IsSpace(s[|s| - 1]) then 1 + TrailingSpace(s[..|s| - 1]) else 0
  }

  /**
   `trim()`: the slice of `s` left between its leading and its trailing white
   space, starting where the leading white space ends.
   */
  function Trim(s: string): (t: string)
    ensures var i := LeadingSpace(s);
            && i + |t| <= |s|
            && t == s[i..i + |t|]
            && (forall k :: i + |t| <= k < |s| ==> IsSpace(s[k]))
    ensures t != [] ==> !IsSpace(t[0]) && !IsSpace(t[|t| - 1])
    ensures t == [] <==> forall k :: 0 <= k < |s| ==> IsSpace(s[k])
  {
    var i := LeadingSpace(s);
    var rest := s[i..];
    var n := TrailingSpace(rest);
    TrimSlice(s, i, rest, n);
    s[i..|s| - n]
  }

  /** The index bookkeeping behind `Trim`, with the counts' facts given as premises. */
  lemma TrimSlice(s: string, i: nat, rest: string, n: nat)
    requires i <= |s| && rest == s[i..]
    requires forall k :: 0 <= k < i ==> IsSpace(s[k])
    requires i < |s| ==> !IsSpace(s[i])
    requires n <= |rest|
    requires forall k :: |rest| - n <= k < |rest| ==> IsSpace(rest[k])
    requires n < |rest| ==> !IsSpace(rest[|rest| - n - 1])
    ensures i <= |s| - n
    ensures forall k :: |s| - n <= k < |s| ==> IsSpace(s[k])
    ensures i < |s| - n ==> !IsSpace(s[i]) && !IsSpace(s[|s| - n - 1])
    ensures i == |s| - n <==> forall k :: 0 <= k < |s| ==> IsSpace(s[k])
  {
    forall k | |s| - n <= k < |s| ensures IsSpace(s[k]) {
      assert s[k] == rest[k - i];
    }
    if i < |s| - n {
      assert s[|s| - n - 1] == rest[|rest| - n - 1];
    }
  }

  /** Trimming twice is trimming once. */
  lemma TrimIdempotent(s: string)
    ensures Trim(Trim(s)) == Trim(s)
  {
    var t := Trim(s);
    if t != [] {
      assert LeadingSpace(t) == 0;
      assert t[0..] == t;
      assert TrailingSpace(t) == 0;
    }
  }

  /**
   Saving the current calculation under a name: a new record goes in front
   of the list, the rest of the list is kept as it was, and the form is
   cleared, which drops the current calculation. Without a current
   calculation nothing happens.
   */
  function SaveToHistory(s: Session, name: string, id: int, savedAt: int): (t: Session)
    ensures s.current.None? ==> t == s
    ensures s.current.Some? ==>
              && |t.history| == |s.history| + 1
              && t.history[0] == Record(id, name, s.current.value.birth, s.current.value.age,
                                        s.current.value.facts, savedAt)
              && (forall k :: 0 <= k < |s.history| ==> t.history[k + 1] == s.history[k])
              && t.current.None?
  {
    match s.current
    case None => s
    case Some(c) =>
      var item := Record(id, name, c.birth, c.age, c.facts, savedAt);
      Session([item] + s.history, None)
  }

  /**
   The save button: the prompt's answer is trimmed, and a cancelled prompt or
   a blank name saves nothing.
   */
  function ShowSaveModal(s: Session, answer: Option<string>, id: int, savedAt: int): (t: Session)
    ensures |t.history| == |s.history| + 1
            <==> s.current.Some? && answer.Some? && Trim(answer.value) != []
    ensures |t.history| != |s.history| + 1 ==> t == s
    ensures |t.history| == |s.history| + 1 ==>
              && t.history[0].name == Trim(answer.value)
              && t.history[0].name != []
              && t.history[1..] == s.history
    ensures s.current.Some? && answer.Some? && Trim(answer.value) != []
            ==> t == SaveToHistory(s, Trim(answer.value), id, savedAt)
  {
    if s.current.None? then s
    else if answer.Some? && Trim(answer.value) != [] then SaveToHistory(s, Trim(answer.value), id, savedAt)
    else s
  }

  /** A fresh id keeps the ids of the history distinct across a save. */
  lemma SaveKeepsIdsDistinct(s: Session, name: string, id: int, savedAt: int)
    requires DistinctIds(s.history) && !HasId(s.history, id)
    ensures DistinctIds(SaveToHistory(s, name, id, savedAt).history)
  {
    var t := SaveToHistory(s, name, id, savedAt);
    if s.current.Some? {
      forall i, j | 0 <= i < j < |t.history|
        ensures t.history[i].id != t.history[j].id
      {
        if i > 0 {
          assert t.history[i] == s.history[i - 1];
        }
        assert t.history[j] == s.history[j - 1];
      }
    }
  }

  /** `find`: the first record carrying the id, or nothing when none does. */
  function Find(h: seq<Record>, id: int): (r: Option<Record>)
    ensures r.Some? <==> HasId(h, id)
    ensures r.Some? ==>
              exists i :: 0 <= i < |h| && h[i] == r.value && r.value.id == id
                          && forall j :: 0 <= j < i ==> h[j].id != id
  {
    if h == [] then None
    else if h[0].id == id then Some(h[0])
    else
      var r := Find(h[1..], id);
      assert HasId(h, id) ==> HasId(h[1..], id) by {
        if HasId(h, id) {
          var k :| 0 <= k < |h| && h[k].id == id;
          assert h[1..][k - 1].id == id;
        }
      }
      assert r.Some? ==>
               exists i :: 0 <= i < |h| && h[i] == r.value && r.value.id == id
                           && forall j :: 0 <= j < i ==> h[j].id != id by {
        if r.Some? {
          var i :| 0 <= i < |h[1..]| && h[1..][i] == r.value && r.value.id == id
                   && forall j :: 0 <= j < i ==> h[1..][j].id != id;
          assert h[i + 1] == r.value;
          forall j | 0 <= j < i + 1 ensures h[j].id != id {
            if j > 0 { assert h[j] == h[1..][j - 1]; }
          }
        }
      }
      r
  }

  /** `filter(item => item.id !== id)`: every record with another id, in the original order. */
  function RemoveId(h: seq<Record>, id: int): (t: seq<Record>)
    ensures |t| <= |h|
    ensures forall r :: r in t <==> r in h && r.id != id
    ensures !HasId(h, id) ==> t == h
  {
    if h == [] then []
    else
      var rest := RemoveId(h[1..], id);
      assert !HasId(h, id) ==> !HasId(h[1..], id) by {
        if HasId(h[1..], id) {
          var k :| 0 <= k < |h[1..]| && h[1..][k].id == id;
          assert h[k + 1].id == id;
        }
      }
      assert forall r :: r in h <==> r == h[0] || r in h[1..] by {
        assert h == [h[0]] + h[1..];
      }
      if h[0].id == id then rest else [h[0]] + rest
  }

  /** Filtering distributes over concatenation, so the kept records stay in their original order. */
  lemma {:induction false} RemoveIdDistributes(a: seq<Record>, b: seq<Record>, id: int)
    ensures RemoveId(a + b, id) == RemoveId(a, id) + RemoveId(b, id)
  {
    if a == [] {
      assert a + b == b;
    } else {
      assert (a + b)[1..] == a[1..] + b;
      RemoveIdDistributes(a[1..], b, id);
    }
  }

  /** With distinct ids, deleting an id that is present removes exactly one record. */
  lemma {:induction false} RemoveIdRemovesOne(h: seq<Record>, id: int)
    requires DistinctIds(h) && HasId(h, id)
    ensures |RemoveId(h, id)| == |h| - 1
  {
    if h[0].id == id {
      assert !HasId(h[1..], id);
    } else {
      var k :| 0 <= k < |h| && h[k].id == id;
      assert h[1..][k - 1].id == id;
      RemoveIdRemovesOne(h[1..], id);
    }
  }

  /** Deleting keeps the ids distinct. */
  lemma RemoveIdKeepsIdsDistinct(h: seq<Record>, id: int)
    requires DistinctIds(h)
    ensures DistinctIds(RemoveId(h, id))
  {
    if h != [] {
      RemoveIdKeepsIdsDistinct(h[1..], id);
      var rest := RemoveId(h[1..], id);
      if h[0].id != id {
        forall j | 0 <= j < |rest| ensures h[0].id != rest[j].id {
          assert rest[j] in h[1..];
        }
      }
    }
  }

  /** The delete button: with the user's confirmation, every record with the id is removed; otherwise nothing changes. */
  function DeleteHistoryItem(s: Session, id: int, confirmed: bool): (t: Session)
    ensures !confirmed ==> t == s
    ensures confirmed ==> t.history == RemoveId(s.history, id) && t.current == s.current
    ensures !HasId(s.history, id) ==> t == s
  {
    if confirmed then s.(history := RemoveId(s.history, id)) else s
  }

  /** The clear-all button: nothing to do on an empty list; otherwise the list empties once the user confirms. */
  function ClearAllHistory(s: Session, confirmed: bool): (t: Session)
    ensures |s.history| == 0 || !confirmed ==> t == s
    ensures confirmed ==> t.history == [] && t.current == s.current
  {
    if |s.history| == 0 then s
    else if confirmed then s.(history := []) else s
  }

  /**
   The use button: the record with the id is looked up and its birth date is
   recalculated against the current instant; an unknown id changes nothing.
   */
  function UseHistoryItem(s: Session, id: int, now: Instant): (t: Session)
    requires ValidInstant(now)
    ensures t.history == s.history
    ensures !HasId(s.history, id) ==> t == s
    ensures HasId(s.history, id) ==>
              exists i :: 0 <= i < |s.history| && s.history[i].id == id
                          && (forall j :: 0 <= j < i ==> s.history[j].id != id)
                          && t.current.Some? && t.current.value.birth == s.history[i].birth
  {
    match Find(s.history, id)
    case None => s
    case Some(item) =>
      s.(current := Some(PerformAgeCalculation(item.birth.day, item.birth.month, item.birth.year, now)))
  }
}
