/** src/sds.c: length-prefixed byte strings in a buffer that ends with a zero byte. Any
    allocation may fail, for which null stands. */
module SdsStrings {
  import opened Allocation
  import opened Options
  import opened SdsLaws

  const SDS_MAX_PREALLOC: nat := 1024 * 1024

  class Sds {
    var len: nat
    var buf: array<byte>  // the allocated bytes and the terminator
    ghost var live: bool  // until sdsfree

    ghost predicate Valid()
      reads this, buf
    {
      live && len < buf.Length && buf[len] == 0
    }

    ghost function Text(): Bytes
      requires Valid()
      reads this, buf
    {
      buf[..len]
    }

    constructor (buf: array<byte>, len: nat)
      requires len < buf.Length && buf[len] == 0
      ensures Valid() && this.buf == buf && this.len == len
    {
      this.buf, this.len, live := buf, len, true;
    }

    // sdsfree
    method Free()
      requires Valid()
      modifies `live
      ensures !live
    {
      live := false;
    }
  }

  // memcpy
  method CopyBytes(buf: array<byte>, at: nat, src: Bytes)
    requires at + |src| <= buf.Length
    modifies buf
    ensures buf[..at + |src|] == old(buf[..at]) + src && buf[at + |src|..] == old(buf[at + |src|..])
  {
    for i := 0 to |src|
      invariant forall j | 0 <= j < buf.Length :: buf[j] == if at <= j < at + i then src[j - at] else old(buf[j])
    {
      buf[at + i] := src[i];
    }
  }

  // the leftmost occurrence of a needle that is not empty
  method FindBytes(haystack: Bytes, needle: Bytes) returns (at: Option<nat>)
    ensures needle == [] ==> at == None
    ensures needle != [] ==> at == First(haystack, needle)
    ensures at.Some? ==>
      at.value + |needle| <= |haystack| && haystack[at.value..at.value + |needle|] == needle
    ensures needle != [] ==> forall p, q | haystack == p + needle + q :: at.Some? && at.value <= |p|
  {
    if |needle| == 0 {
      return None;
    }
    FirstLeftmost(haystack, needle);
    IsFirst(haystack, needle, None);
    if |haystack| < |needle| {
      return None;
    }
    var i := 0;
    while i + |needle| <= |haystack|
      invariant NoneBefore(haystack, needle, i) && i <= |haystack|
    {
      if haystack[i..i + |needle|] == needle {
        IsFirst(haystack, needle, Some(i));
        return Some(i);
      }
      i := i + 1;
    }
    return None;
  }

  // the first pass of both splitting and replacing
  method CountMatches(s: Bytes, sep: Bytes) returns (count: nat)
    requires sep != []
    ensures count + 1 == |Split(s, sep)|
  {
    var cursor: nat := 0;
    count := 0;
    assert s[0..] == s;
    while true
      invariant cursor <= |s| && count + |Split(s[cursor..], sep)| == |Split(s, sep)|
      decreases |s| - cursor
    {
      var at := FindBytes(s[cursor..], sep);
      if at.None? {
        break;
      }
      count := count + 1;
      assert s[cursor..][at.value + |sep|..] == s[cursor + at.value + |sep|..];
      cursor := cursor + at.value + |sep|;
    }
  }

  // The parts of s between separators, in an array of exactly as many slots. Fails on an empty
  // separator.
  method SplitText(s: Bytes, sep: Bytes, plenty: bool) returns (parts: Option<array<Bytes>>, count: nat)
    ensures sep == [] ==> parts == None
    ensures parts.Some? ==> parts.value[..] == Split(s, sep) && count == parts.value.Length && fresh(parts.value)
    ensures parts.None? ==> count == 0
    ensures plenty && sep != [] ==> parts.Some?
  {
    count := 0;
    if |sep| == 0 {
      return None, 0;
    }
    var matches := CountMatches(s, sep);
    var ok := Attempt(plenty);
    if !ok {
      return None, 0;
    }
    var a := new Bytes[matches + 1];
    ok, count := FillParts(a, s, sep, plenty);
    if !ok {
      return None, 0;
    }
    return Some(a), count;
  }

  // the second pass of splitting
  method FillParts(a: array<Bytes>, s: Bytes, sep: Bytes, plenty: bool) returns (ok: bool, index: nat)
    requires sep != [] && a.Length == |Split(s, sep)|
    modifies a
    ensures ok ==> a[..] == Split(s, sep) && index == a.Length
    ensures plenty ==> ok
  {
    ghost var done: seq<Bytes> := [];
    var cursor: nat := 0;
    index := 0;
    assert s[0..] == s;
    while true
      invariant SplitSoFar(s, sep, cursor, done) && |done| == index <= a.Length && a[..index] == done
      decreases |s| - cursor
    {
      var at := FindBytes(s[cursor..], sep);
      ok := Attempt(plenty);
      if !ok {
        return false, index;
      }
      var next;
      next, index, done := FillPart(a, s, sep, cursor, index, done, at);
      if at.None? {
        return true, index;
      }
      cursor := next;
    }
  }

  // the body of that loop
  method FillPart(a: array<Bytes>, s: Bytes, sep: Bytes, cursor: nat, index0: nat, ghost done0: seq<Bytes>,
          at: Option<nat>)
    returns (next: nat, index: nat, ghost done: seq<Bytes>)
    requires sep != [] && a.Length == |Split(s, sep)|
    requires SplitSoFar(s, sep, cursor, done0) && |done0| == index0 <= a.Length && a[..index0] == done0
    requires at == First(s[cursor..], sep)
    modifies a
    ensures |done| == index <= a.Length && a[..index] == done
    ensures at.Some? ==> SplitSoFar(s, sep, next, done) && cursor < next
    ensures at.None? ==> done == Split(s, sep)
  {
    SplitMore(s, sep, cursor, done0, at);
    var partLen := if at.None? then |s| - cursor else at.value;
    var part := s[cursor..cursor + partLen];
    assert at.None? ==> part == s[cursor..];
    index := PutPart(a, index0, part);
    done := done0 + [part];
    next := if at.None? then |s| else cursor + at.value + |sep|;
  }

  method PutPart(a: array<Bytes>, index: nat, part: Bytes) returns (next: nat)
    requires index < a.Length
    modifies a
    ensures a[..index + 1] == old(a[..index]) + [part] && next == index + 1
  {
    a[index] := part;
    next := index + 1;
  }

  // the allocation that sds_reserve_for_additional settles on
  method GrownAlloc(len: nat, alloc: nat, addLen: nat) returns (newAlloc: nat)
    requires len <= alloc
    ensures newAlloc >= alloc && newAlloc - len >= addLen
    ensures alloc - len >= addLen ==> newAlloc == alloc
  {
    if alloc - len >= addLen {
      return alloc;
    }
    var newLen := len + addLen;
    if newLen < SDS_MAX_PREALLOC {
      newLen := newLen * 2;
    } else {
      newLen := newLen + SDS_MAX_PREALLOC;
    }
    newAlloc := newLen;
  }

  // The parts with the separator between each two. The length is added up before any byte is
  // written, and it is the number of bytes written.
  method JoinParts(parts: seq<Bytes>, sep: Bytes, plenty: bool) returns (joined: Sds?)
    ensures joined != null ==> fresh(joined) && fresh(joined.buf) && joined.Valid() && joined.Text() == Join(parts, sep)
    ensures plenty ==> joined != null
  {
    var total := 0;
    for i := 0 to |parts|
      invariant total == |Written(parts, sep, i)|
    {
      WrittenStep(parts, sep, i);
      total := total + |parts[i]|;
      if i + 1 < |parts| {
        total := total + |sep|;
      }
    }

    var ok := Attempt(plenty);
    if !ok {
      return null;
    }
    var alloc := GrownAlloc(0, 0, total);
    var buf := new byte[alloc + 1];
    var dest := WriteParts(buf, parts, sep);
    buf[dest] := 0;
    joined := new Sds(buf, total);
  }

  // the second pass of joining
  method WriteParts(buf: array<byte>, parts: seq<Bytes>, sep: Bytes) returns (dest: nat)
    requires |Join(parts, sep)| < buf.Length
    modifies buf
    ensures dest == |Join(parts, sep)| && buf[..dest] == Join(parts, sep)
  {
    dest := 0;
    for i := 0 to |parts|
      invariant dest == |Written(parts, sep, i)| <= buf.Length && buf[..dest] == Written(parts, sep, i)
    {
      WrittenStep(parts, sep, i);
      WrittenGrows(parts, sep, i + 1);
      if i + 1 < |parts| {
        dest := WriteBoth(buf, dest, parts[i], sep);
      } else {
        CopyBytes(buf, dest, parts[i]);
        dest := dest + |parts[i]|;
      }
    }
  }

  // two texts one after the other
  method WriteBoth(buf: array<byte>, at: nat, first: Bytes, second: Bytes) returns (dest: nat)
    requires at + |first| + |second| <= buf.Length
    modifies buf
    ensures dest == at + |first| + |second| && buf[..dest] == old(buf[..at]) + first + second
  {
    dest := at;
    CopyBytes(buf, dest, first);
    dest := dest + |first|;
    CopyBytes(buf, dest, second);
    dest := dest + |second|;
  }

  // Puts a text in place of every occurrence. Without an occurrence, or with nothing to look
  // for, the string itself is returned; a new string takes its place, and it is freed.
  method ReplaceAll(s: Sds, replace: Bytes, with: Bytes, plenty: bool) returns (r: Sds?)
    requires s.Valid()
    modifies s`live
    ensures r != null ==>
      r.Valid() && r.Text() == if replace == [] then old(s.Text()) else Replace(old(s.Text()), replace, with)
    ensures replace == [] || First(old(s.Text()), replace) == None ==> r == s
    ensures if r == null || r == s then s.live else !s.live && fresh(r) && fresh(r.buf)
    ensures plenty ==> r != null
  {
    if |replace| == 0 {
      return s;
    }
    var source := s.buf[..s.len];
    var count := CountMatches(source, replace);
    ReplaceLength(source, replace, with);
    if count == 0 {
      return s;
    }
    var newLen :=
      if |with| >= |replace| then s.len + (|with| - |replace|) * count
      else s.len - (|replace| - |with|) * count;
    assert newLen == |Replace(source, replace, with)| by {
      if |with| < |replace| {
        Opposite(|with| - |replace|, count);
      }
    }
    var ok := Attempt(plenty);
    if !ok {
      return null;
    }
    var buf := new byte[newLen + 1];
    WriteReplaced(buf, source, replace, with);
    buf[newLen] := 0;
    r := new Sds(buf, newLen);
    s.Free();
  }

  lemma Opposite(a: int, n: int)
    ensures a * n == -((-a) * n)
  {
  }

  // the second pass of replacing
  method WriteReplaced(buf: array<byte>, source: Bytes, replace: Bytes, with: Bytes)
    requires replace != [] && buf.Length == |Replace(source, replace, with)| + 1
    modifies buf
    ensures buf[..buf.Length - 1] == Replace(source, replace, with)
  {
    var cursor, dest;
    ghost var done;
    cursor, dest, done := WriteMatches(buf, source, replace, with);
    ReplaceMore(source, replace, with, cursor, done, None);
    CopyBytes(buf, dest, source[cursor..]);
  }

  // up to the last occurrence
  method WriteMatches(buf: array<byte>, source: Bytes, replace: Bytes, with: Bytes)
    returns (cursor: nat, dest: nat, ghost done: Bytes)
    requires replace != [] && buf.Length == |Replace(source, replace, with)| + 1
    modifies buf
    ensures ReplacedSoFar(source, replace, with, cursor, done) && First(source[cursor..], replace) == None
    ensures |done| == dest < buf.Length && buf[..dest] == done
  {
    cursor, dest, done := 0, 0, [];
    assert source[0..] == source;
    while true
      invariant ReplacedSoFar(source, replace, with, cursor, done)
      invariant |done| == dest < buf.Length && buf[..dest] == done
      decreases |source| - cursor
    {
      var at := FindBytes(source[cursor..], replace);
      if at.None? {
        return;
      }
      cursor, dest, done := WriteMatch(buf, source, replace, with, cursor, dest, done, at);
    }
  }

  // the body of that loop
  method WriteMatch(buf: array<byte>, source: Bytes, replace: Bytes, with: Bytes, cursor0: nat, dest0: nat,
          ghost done0: Bytes, at: Option<nat>)
    returns (cursor: nat, dest: nat, ghost done: Bytes)
    requires replace != [] && buf.Length == |Replace(source, replace, with)| + 1
    requires ReplacedSoFar(source, replace, with, cursor0, done0) && at == First(source[cursor0..], replace) && at.Some?
    requires |done0| == dest0 < buf.Length && buf[..dest0] == done0
    modifies buf
    ensures ReplacedSoFar(source, replace, with, cursor, done) && cursor0 < cursor
    ensures |done| == dest < buf.Length && buf[..dest] == done
  {
    ReplaceMore(source, replace, with, cursor0, done0, at);
    var unmatched := source[cursor0..cursor0 + at.value];
    dest := WriteBoth(buf, dest0, unmatched, with);
    done := done0 + unmatched + with;
    cursor := cursor0 + at.value + |replace|;
  }

  // Cuts the bytes in cset, and zeros, off both ends, in place: the bytes from a to b are kept.
  method Trim(s: Sds, cset: Bytes) returns (ghost a: nat, ghost b: nat)
    requires s.Valid()
    modifies s`len, s.buf
    ensures s.Valid() && a <= b <= old(s.len) && s.Text() == old(s.Text())[a..b]
    ensures forall i | 0 <= i < a || b <= i < old(s.len) :: old(s.Text())[i] in cset || old(s.Text())[i] == 0
    ensures a < b ==> old(s.Text())[a] !in cset && old(s.Text())[a] != 0
    ensures a < b ==> old(s.Text())[b - 1] !in cset && old(s.Text())[b - 1] != 0
  {
    a, b := 0, 0;
    if s.len == 0 {
      return;
    }
    ghost var text := s.Text();
    var buf := s.buf;
    var sp, len := TrimBounds(buf, s.len, cset);
    a, b := sp, sp + len;
    if sp != 0 {
      MoveDown(buf, sp, len);
    }
    buf[len] := 0;
    s.len := len;
    assert forall i | 0 <= i < len :: s.Text()[i] == text[a..b][i];
  }

  // the two searches of trimming; strchr(cset, c) finds the terminator of cset too
  method TrimBounds(buf: array<byte>, n: nat, cset: Bytes) returns (sp: nat, len: nat)
    requires 0 < n <= buf.Length
    ensures sp + len <= n
    ensures forall i | 0 <= i < sp || sp + len <= i < n :: buf[..n][i] in cset || buf[..n][i] == 0
    ensures len > 0 ==> buf[..n][sp] !in cset && buf[..n][sp] != 0
    ensures len > 0 ==> buf[..n][sp + len - 1] !in cset && buf[..n][sp + len - 1] != 0
  {
    var end := n - 1;
    sp := 0;
    while sp <= end && (buf[sp] in cset || buf[sp] == 0)
      invariant sp <= end + 1
      invariant forall i | 0 <= i < sp :: buf[i] in cset || buf[i] == 0
    {
      sp := sp + 1;
    }
    var ep := end;
    while ep > sp && (buf[ep] in cset || buf[ep] == 0)
      invariant ep <= end && (sp <= ep || (sp == end + 1 && ep == end))
      invariant forall i | ep < i <= end :: buf[i] in cset || buf[i] == 0
    {
      ep := ep - 1;
    }
    len := ep - sp + 1;
  }

  // memmove to the start of the buffer
  method MoveDown(buf: array<byte>, from: nat, n: nat)
    requires from + n <= buf.Length
    modifies buf
    ensures forall i | 0 <= i < n :: buf[i] == old(buf[from + i])
  {
    for i := 0 to n
      invariant forall j | 0 <= j < i :: buf[j] == old(buf[from + j])
      invariant forall j | i <= j < buf.Length :: buf[j] == old(buf[j])
    {
      buf[i] := buf[from + i];
    }
  }
}
