/** Splitting, joining and replacing byte strings, as src/sds.c does: by the leftmost
    occurrences of a separator that do not overlap. */
module SdsLaws {
  import opened Options

  newtype byte = x: int | 0 <= x < 256
  type Bytes = seq<byte>

  predicate MatchAt(s: Bytes, sep: Bytes, i: nat) {
    i + |sep| <= |s| && s[i..i + |sep|] == sep
  }

  ghost predicate NoneBefore(s: Bytes, sep: Bytes, n: nat) {
    forall i | 0 <= i < n :: !MatchAt(s, sep, i)
  }

  // i is the leftmost occurrence of sep, or there is none
  ghost predicate Leftmost(s: Bytes, sep: Bytes, i: Option<nat>) {
    match i
    case Some(n) => MatchAt(s, sep, n) && NoneBefore(s, sep, n)
    case None => NoneBefore(s, sep, |s|)
  }

  ghost function First(s: Bytes, sep: Bytes): (i: Option<nat>)
    requires sep != []
    ensures i.Some? ==> i.value + |sep| <= |s|
  {
    FirstFrom(s, sep, 0)
  }

  ghost function FirstFrom(s: Bytes, sep: Bytes, n: nat): (i: Option<nat>)
    requires sep != [] && n <= |s|
    ensures i.Some? ==> i.value + |sep| <= |s|
    decreases |s| - n
  {
    if n == |s| then None else if MatchAt(s, sep, n) then Some(n) else FirstFrom(s, sep, n + 1)
  }

  lemma {:induction false} FirstFromLeftmost(s: Bytes, sep: Bytes, n: nat)
    requires sep != [] && n <= |s| && NoneBefore(s, sep, n)
    ensures Leftmost(s, sep, FirstFrom(s, sep, n))
    decreases |s| - n
  {
    if n < |s| && !MatchAt(s, sep, n) {
      FirstFromLeftmost(s, sep, n + 1);
    }
  }

  lemma IsFirst(s: Bytes, sep: Bytes, i: Option<nat>)
    requires sep != []
    ensures Leftmost(s, sep, i) <==> i == First(s, sep)
  {
    FirstFromLeftmost(s, sep, 0);
  }

  // First finds an occurrence, and no other one starts before it.
  lemma FirstLeftmost(s: Bytes, sep: Bytes)
    requires sep != []
    ensures First(s, sep).Some? ==> s[First(s, sep).value..First(s, sep).value + |sep|] == sep
    ensures forall p, q | s == p + sep + q :: First(s, sep).Some? && First(s, sep).value <= |p|
  {
    IsFirst(s, sep, First(s, sep));
    forall p, q | s == p + sep + q ensures MatchAt(s, sep, |p|) {
      assert s[|p|..|p| + |sep|] == sep;
    }
  }

  ghost function Split(s: Bytes, sep: Bytes): (parts: seq<Bytes>)
    requires sep != []
    ensures |parts| > 0
    decreases |s|
  {
    match First(s, sep)
    case None => [s]
    case Some(i) => [s[..i]] + Split(s[i + |sep|..], sep)
  }

  ghost function Join(parts: seq<Bytes>, sep: Bytes): Bytes {
    if parts == [] then []
    else if |parts| == 1 then parts[0]
    else parts[0] + sep + Join(parts[1..], sep)
  }

  ghost function TotalLength(parts: seq<Bytes>): nat {
    if parts == [] then 0 else |parts[0]| + TotalLength(parts[1..])
  }

  ghost function Replace(s: Bytes, old_: Bytes, new_: Bytes): Bytes
    requires old_ != []
    decreases |s|
  {
    match First(s, old_)
    case None => s
    case Some(i) => s[..i] + new_ + Replace(s[i + |old_|..], old_, new_)
  }

  // ---------- the laws ----------

  // Joining what was split gives the text back.
  lemma {:induction false} JoinSplit(s: Bytes, sep: Bytes)
    requires sep != []
    ensures Join(Split(s, sep), sep) == s
    decreases |s|
  {
    IsFirst(s, sep, First(s, sep));
    if First(s, sep).Some? {
      var i := First(s, sep).value;
      var rest := s[i + |sep|..];
      JoinSplit(rest, sep);
      assert s == s[..i] + s[i..i + |sep|] + rest;
    }
  }

  // Replacing is splitting by the one text and joining with the other.
  lemma {:induction false} ReplaceIsSplitJoin(s: Bytes, old_: Bytes, new_: Bytes)
    requires old_ != []
    ensures Replace(s, old_, new_) == Join(Split(s, old_), new_)
    decreases |s|
  {
    var i := First(s, old_);
    if i.Some? {
      var rest := s[i.value + |old_|..];
      ReplaceIsSplitJoin(rest, old_, new_);
    }
  }

  // At least one part; the parts before the last, followed by the separator, first show it at
  // their end, and the last does not show it at all.
  ghost predicate Clean(parts: seq<Bytes>, sep: Bytes) {
    && parts != []
    && if |parts| == 1 then NoneBefore(parts[0], sep, |parts[0]|)
       else NoneBefore(parts[0] + sep, sep, |parts[0]|) && Clean(parts[1..], sep)
  }

  lemma {:induction false} SplitClean(s: Bytes, sep: Bytes)
    requires sep != []
    ensures Clean(Split(s, sep), sep)
    decreases |s|
  {
    IsFirst(s, sep, First(s, sep));
    if First(s, sep).Some? {
      var i := First(s, sep).value;
      var rest := s[i + |sep|..];
      SplitClean(rest, sep);
      assert ([s[..i]] + Split(rest, sep))[1..] == Split(rest, sep);
      assert s[..i] + sep == s[..i + |sep|];
      MatchWithin(s, s[i + |sep|..], sep, s[..i + |sep|]);
    }
  }

  // an occurrence in the front part of a text is one in the text
  lemma MatchWithin(s: Bytes, tail: Bytes, sep: Bytes, front: Bytes)
    requires s == front + tail
    ensures forall j | 0 <= j <= |front| - |sep| :: MatchAt(front, sep, j) <==> MatchAt(s, sep, j)
    ensures forall j | 0 <= j && MatchAt(front, sep, j) :: MatchAt(s, sep, j)
  {
  }

  // Splitting a joined text gives the parts back exactly when they are clean. No parts at all
  // join to the empty text, which splits into one part.
  lemma {:induction false} SplitJoin(parts: seq<Bytes>, sep: Bytes)
    requires sep != []
    ensures Split(Join(parts, sep), sep) == parts <==> Clean(parts, sep)
  {
    if Clean(parts, sep) {
      CleanSplit(parts, sep);
    }
    SplitClean(Join(parts, sep), sep);
  }

  lemma {:induction false} CleanSplit(parts: seq<Bytes>, sep: Bytes)
    requires sep != [] && Clean(parts, sep)
    ensures Split(Join(parts, sep), sep) == parts
  {
    var s := Join(parts, sep);
    if |parts| == 1 {
      IsFirst(s, sep, None);
      assert parts == [s];
    } else {
      var p, rest := parts[0], Join(parts[1..], sep);
      assert s == (p + sep) + rest;
      assert (p + sep)[|p|..|p| + |sep|] == sep;
      MatchWithin(s, rest, sep, p + sep);
      IsFirst(s, sep, Some(|p|));
      assert s[..|p|] == p && s[|p| + |sep|..] == rest;
      CleanSplit(parts[1..], sep);
      assert parts == [p] + parts[1..];
    }
  }

  // Only one list of clean parts makes up a text, the one that split returns.
  lemma SplitUnique(s: Bytes, sep: Bytes, parts: seq<Bytes>)
    requires sep != [] && Clean(parts, sep) && Join(parts, sep) == s
    ensures parts == Split(s, sep)
  {
    CleanSplit(parts, sep);
  }

  // Every part ends at the first separator behind it, and the last one has none.
  lemma {:induction false} CleanAt(parts: seq<Bytes>, sep: Bytes, i: nat, a: Bytes, b: Bytes)
    requires sep != [] && Clean(parts, sep) && i < |parts|
    ensures i + 1 < |parts| && parts[i] + sep == a + sep + b ==> |parts[i]| <= |a|
    ensures i + 1 == |parts| ==> parts[i] != a + sep + b
  {
    if i > 0 {
      CleanAt(parts[1..], sep, i - 1, a, b);
    } else {
      var t := if |parts| == 1 then parts[0] else parts[0] + sep;
      if t == a + sep + b {
        assert t[|a|..|a| + |sep|] == sep;
        assert MatchAt(t, sep, |a|);
      }
    }
  }

  lemma SplitAt(s: Bytes, sep: Bytes, i: nat, a: Bytes, b: Bytes)
    requires sep != [] && i < |Split(s, sep)|
    ensures i + 1 < |Split(s, sep)| && Split(s, sep)[i] + sep == a + sep + b ==> |Split(s, sep)[i]| <= |a|
    ensures i + 1 == |Split(s, sep)| ==> Split(s, sep)[i] != a + sep + b
  {
    SplitClean(s, sep);
    CleanAt(Split(s, sep), sep, i, a, b);
  }

  // For a separator of one byte, clean parts are those without that byte.
  lemma {:induction false} CleanByte(parts: seq<Bytes>, b: byte)
    ensures Clean(parts, [b]) <==> parts != [] && forall p | p in parts :: b !in p
  {
    if parts == [] {
      return;
    }
    var p := parts[0];
    NoneByte(p, b, p);
    NoneByte(p, b, p + [b]);
    if |parts| == 1 {
      assert parts == [p];
    } else {
      CleanByte(parts[1..], b);
      assert parts == [p] + parts[1..];
    }
  }

  lemma NoneByte(p: Bytes, b: byte, s: Bytes)
    requires p <= s
    ensures NoneBefore(s, [b], |p|) <==> b !in p
  {
    forall i | 0 <= i < |p| ensures MatchAt(s, [b], i) <==> p[i] == b {
      assert s[i..i + 1] == [s[i]];
    }
    if NoneBefore(s, [b], |p|) {
      assert forall i | 0 <= i < |p| :: !MatchAt(s, [b], i);
    }
  }

  // ---------- lengths ----------

  lemma {:induction false} JoinLength(parts: seq<Bytes>, sep: Bytes)
    ensures |Join(parts, sep)| == TotalLength(parts) + if parts == [] then 0 else (|parts| - 1) * |sep|
  {
    if |parts| > 1 {
      JoinLength(parts[1..], sep);
    }
  }

  // the length that replacing computes before it writes
  lemma ReplaceLength(s: Bytes, old_: Bytes, new_: Bytes)
    requires old_ != []
    ensures |Replace(s, old_, new_)| == |s| + (|new_| - |old_|) * (|Split(s, old_)| - 1)
  {
    var parts := Split(s, old_);
    JoinSplit(s, old_);
    ReplaceIsSplitJoin(s, old_, new_);
    JoinLength(parts, old_);
    JoinLength(parts, new_);
  }

  // ---------- partial results ----------

  lemma {:induction false} JoinAppend(front: seq<Bytes>, back: seq<Bytes>, sep: Bytes)
    requires front != [] && back != []
    ensures Join(front + back, sep) == Join(front, sep) + sep + Join(back, sep)
  {
    var p := front[0];
    if |front| == 1 {
      assert front == [p];
    } else {
      var rest := front[1..];
      assert front == [p] + rest;
      assert front + back == [p] + (rest + back);
      JoinAppend(rest, back, sep);
      assert p + sep + (Join(rest, sep) + sep + Join(back, sep)) == (p + sep + Join(rest, sep)) + sep + Join(back, sep);
    }
  }

  // Joining writes the parts in order, with the separator between each two.
  lemma JoinOneMore(parts: seq<Bytes>, p: Bytes, sep: Bytes)
    ensures Join([], sep) == [] && Join([p], sep) == p
    ensures parts != [] ==> Join(parts + [p], sep) == Join(parts, sep) + sep + p
  {
    if parts != [] {
      JoinAppend(parts, [p], sep);
    }
  }

  // what joining has written before it comes to part i
  ghost function Written(parts: seq<Bytes>, sep: Bytes, i: nat): Bytes
    requires i <= |parts|
  {
    if i == 0 then [] else if i < |parts| then Join(parts[..i], sep) + sep else Join(parts, sep)
  }

  lemma WrittenStep(parts: seq<Bytes>, sep: Bytes, i: nat)
    requires i < |parts|
    ensures Written(parts, sep, i + 1) == Written(parts, sep, i) + parts[i] + if i + 1 < |parts| then sep else []
  {
    var front := parts[..i];
    assert parts[..i + 1] == front + [parts[i]] && parts[..|parts|] == parts;
    if i > 0 {
      JoinAppend(front, [parts[i]], sep);
    }
  }

  lemma {:induction false} WrittenGrows(parts: seq<Bytes>, sep: Bytes, i: nat)
    requires i <= |parts|
    ensures |Written(parts, sep, i)| <= |Written(parts, sep, |parts|)|
    decreases |parts| - i
  {
    if i < |parts| {
      WrittenStep(parts, sep, i);
      WrittenGrows(parts, sep, i + 1);
    }
  }

  // done holds the parts of s before the cursor
  ghost predicate SplitSoFar(s: Bytes, sep: Bytes, cursor: nat, done: seq<Bytes>)
    requires sep != []
  {
    cursor <= |s| && done + Split(s[cursor..], sep) == Split(s, sep)
  }

  lemma SplitMore(s: Bytes, sep: Bytes, cursor: nat, done: seq<Bytes>, at: Option<nat>)
    requires sep != [] && SplitSoFar(s, sep, cursor, done) && at == First(s[cursor..], sep)
    ensures |done| < |Split(s, sep)|
    ensures at.None? ==> done + [s[cursor..]] == Split(s, sep)
    ensures at.Some? ==>
      && cursor + at.value + |sep| <= |s|
      && SplitSoFar(s, sep, cursor + at.value + |sep|, done + [s[cursor..cursor + at.value]])
  {
    var rest := s[cursor..];
    if at.Some? {
      var part, after := rest[..at.value], rest[at.value + |sep|..];
      assert part == s[cursor..cursor + at.value] && after == s[cursor + at.value + |sep|..];
    }
  }

  // done is what replacing makes of s before the cursor
  ghost predicate ReplacedSoFar(s: Bytes, old_: Bytes, new_: Bytes, cursor: nat, done: Bytes)
    requires old_ != []
  {
    cursor <= |s| && done + Replace(s[cursor..], old_, new_) == Replace(s, old_, new_)
  }

  lemma ReplaceMore(s: Bytes, old_: Bytes, new_: Bytes, cursor: nat, done: Bytes, at: Option<nat>)
    requires old_ != [] && ReplacedSoFar(s, old_, new_, cursor, done) && at == First(s[cursor..], old_)
    ensures at.None? ==> done + s[cursor..] == Replace(s, old_, new_)
    ensures at.Some? ==>
      && cursor + at.value + |old_| <= |s|
      && var done' := done + s[cursor..cursor + at.value] + new_;
      ReplacedSoFar(s, old_, new_, cursor + at.value + |old_|, done') && |done'| <= |Replace(s, old_, new_)|
  {
    var rest := s[cursor..];
    if at.Some? {
      var front, after := rest[..at.value], rest[at.value + |old_|..];
      assert front == s[cursor..cursor + at.value] && after == s[cursor + at.value + |old_|..];
      Reassociate(done, front, new_, Replace(after, old_, new_));
    }
  }

  lemma Reassociate(a: Bytes, b: Bytes, c: Bytes, d: Bytes)
    ensures a + (b + c + d) == (a + b + c) + d
  {
  }
}
