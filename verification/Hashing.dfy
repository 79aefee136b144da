/** The three drivers behind hash_combine_range and hash_combine: over contiguous memory,
    over an iterator through a 64-byte buffer, and over an argument list whose items may
    straddle the buffer. All three compute one function of the byte stream. */
module Hashing {
  import opened Collections

  type Byte = bv8

  /** hash_state's operations and hash_short, as parameters. */
  datatype Mixer<!S, !H> = Mixer(
    create: seq<Byte> -> S,
    mix: (S, seq<Byte>) -> S,
    finalize: (S, nat) -> H,
    short: seq<Byte> -> H)

  // ----- The function of the stream -----

  /** The state after the first n chunks of 64 bytes. */
  function MixChunks<S, H>(mx: Mixer<S, H>, s: seq<Byte>, n: nat): (st: S)
    requires 1 <= n && 64 * n <= |s|
  {
    if n == 1 then mx.create(s[..64])
    else mx.mix(MixChunks(mx, s, n - 1), s[64 * (n - 1)..64 * n])
  }

  /** Up to 64 bytes are hashed directly. A longer stream is mixed chunk by chunk, and an
      incomplete last chunk is replaced by the last 64 bytes. */
  function HashStream<S, H>(mx: Mixer<S, H>, s: seq<Byte>): (h: H) {
    if |s| <= 64 then mx.short(s)
    else
      var st := MixChunks(mx, s, |s| / 64);
      mx.finalize(if |s| % 64 == 0 then st else mx.mix(st, s[|s| - 64..]), |s|)
  }

  lemma {:induction false} MixChunksPrefix<S, H>(mx: Mixer<S, H>, s: seq<Byte>, t: seq<Byte>, n: nat)
    requires 1 <= n && 64 * n <= |s| && s <= t
    ensures MixChunks(mx, s, n) == MixChunks(mx, t, n)
  {
    if n > 1 {
      MixChunksPrefix(mx, s, t, n - 1);
      assert s[64 * (n - 1)..64 * n] == t[64 * (n - 1)..64 * n];
    } else {
      assert s[..64] == t[..64];
    }
  }

  // ----- What is mixed -----

  /** The calls a hash makes: hash_short, or the chunks mixed and the length at the end. */
  datatype Record = Short(s: seq<Byte>) | Long(chunks: seq<seq<Byte>>, length: nat)

  function Recorder(): (mx: Mixer<seq<seq<Byte>>, Record>) {
    Mixer(c => [c], (chunks, c) => chunks + [c], (chunks, n) => Long(chunks, n), s => Short(s))
  }

  lemma {:induction false} ChunksRecorded(s: seq<Byte>, n: nat)
    requires 1 <= n && 64 * n <= |s|
    ensures var r := MixChunks(Recorder(), s, n); |r| == n && forall k :: 0 <= k < n ==> r[k] == s[64 * k..64 * k + 64]
  {
    if n > 1 {
      ChunksRecorded(s, n - 1);
    }
  }

  /** Up to 64 bytes go to hash_short. Of a longer stream all whole chunks are mixed, once and in
      order, then its last 64 bytes if some are left over, and last comes the length. */
  lemma StreamRecorded(s: seq<Byte>)
    ensures var r, n := HashStream(Recorder(), s), |s| / 64;
      if |s| <= 64 then r == Short(s)
      else
        && r.Long? && r.length == |s| && |r.chunks| == (if |s| % 64 == 0 then n else n + 1)
        && (forall k :: 0 <= k < n ==> r.chunks[k] == s[64 * k..64 * k + 64])
        && (|s| % 64 != 0 ==> r.chunks[n] == s[|s| - 64..])
  {
    if |s| > 64 {
      ChunksRecorded(s, |s| / 64);
    }
  }

  // ----- The contiguous form -----

  /** hash_combine_range_impl for pointers. */
  method HashContiguous<S, H>(mx: Mixer<S, H>, s: seq<Byte>) returns (h: H)
    ensures h == HashStream(mx, s)
  {
    var length := |s|;
    if length <= 64 {
      return mx.short(s);
    }
    var alignedEnd := length - length % 64;
    var state := mx.create(s[..64]);
    var begin := 64;
    while begin != alignedEnd
      invariant 64 <= begin <= alignedEnd && begin % 64 == 0
      invariant state == MixChunks(mx, s, begin / 64)
      decreases alignedEnd - begin
    {
      state := mx.mix(state, s[begin..begin + 64]);
      begin := begin + 64;
    }
    if length % 64 != 0 {
      state := mx.mix(state, s[length - 64..]);
    }
    return mx.finalize(state, length);
  }

  // ----- The buffer -----

  /** store_and_advance: copies data from offset on behind ptr if it fits. */
  method StoreAndAdvance(buffer: array<Byte>, ptr: nat, data: seq<Byte>, offset: nat) returns (ok: bool, next: nat)
    requires buffer.Length == 64 && ptr <= 64 && offset <= |data|
    modifies buffer
    ensures ok <==> ptr + (|data| - offset) <= 64
    ensures !ok ==> next == ptr && buffer[..] == old(buffer[..])
    ensures ok ==> next == ptr + (|data| - offset) && buffer[..] == old(buffer[..ptr]) + data[offset..] + old(buffer[next..])
  {
    var size := |data| - offset;
    if ptr + size > 64 {
      return false, ptr;
    }
    Store(buffer, ptr, data[offset..]);
    return true, ptr + size;
  }

  /** memcpy into the buffer. */
  method Store(buffer: array<Byte>, ptr: nat, data: seq<Byte>)
    requires ptr + |data| <= buffer.Length
    modifies buffer
    ensures buffer[..] == old(buffer[..ptr]) + data + old(buffer[ptr + |data|..])
  {
    for i := 0 to |data|
      invariant buffer[..ptr] == old(buffer[..ptr])
      invariant buffer[ptr..ptr + i] == data[..i]
      invariant buffer[ptr + |data|..] == old(buffer[ptr + |data|..])
    {
      buffer[ptr + i] := data[i];
    }
    assert buffer[..] == buffer[..ptr] + buffer[ptr..ptr + |data|] + buffer[ptr + |data|..];
  }

  /** std::rotate(buffer, buffer + mid, end). */
  method Rotate(buffer: array<Byte>, mid: nat)
    requires mid <= buffer.Length
    modifies buffer
    ensures buffer[..] == old(buffer[mid..] + buffer[..mid])
  {
    ghost var s := buffer[mid..] + buffer[..mid];
    var n := buffer.Length;
    forall i | 0 <= i < n {
      buffer[i] := if i < n - mid then buffer[mid + i] else buffer[i - (n - mid)];
    }
    assert forall i :: 0 <= i < n ==> buffer[i] == s[i];
  }

  function Bytes(items: seq<seq<Byte>>): (s: seq<Byte>) {
    if items == [] then [] else Bytes(items[..|items| - 1]) + items[|items| - 1]
  }

  lemma BytesNext(items: seq<seq<Byte>>, i: nat)
    requires i < |items|
    ensures Bytes(items[..i + 1]) == Bytes(items[..i]) + items[i]
  {
    assert items[..i + 1][..i] == items[..i];
  }

  lemma {:induction false} BytesPrefix(items: seq<seq<Byte>>, i: nat)
    requires i <= |items|
    ensures Bytes(items[..i]) <= Bytes(items)
    decreases |items| - i
  {
    if i == |items| {
      assert items[..i] == items;
    } else {
      BytesNext(items, i);
      BytesPrefix(items, i + 1);
    }
  }

  /** The buffer holds the stream's bytes from hashed on in front, and behind them the end
      of the chunk before: together the last 64 bytes of s, rotated. */
  ghost predicate Window(buffer: seq<Byte>, s: seq<Byte>, hashed: nat, ptr: nat) {
    && |buffer| == 64 && ptr <= 64 && |s| == hashed + ptr
    && buffer[..ptr] == s[hashed..]
    && (hashed > 0 ==> hashed >= 64 && buffer[ptr..] == s[hashed - 64 + ptr..hashed])
  }

  /** So rotating it gives the last 64 bytes. */
  lemma RotatedWindow(buffer: seq<Byte>, s: seq<Byte>, hashed: nat, ptr: nat)
    requires Window(buffer, s, hashed, ptr) && hashed > 0
    ensures buffer[ptr..] + buffer[..ptr] == s[|s| - 64..]
  {
  }

  /** Storing more bytes keeps the window. */
  lemma WindowStore(buffer: seq<Byte>, s: seq<Byte>, hashed: nat, ptr: nat, data: seq<Byte>)
    requires Window(buffer, s, hashed, ptr) && ptr + |data| <= 64
    ensures Window(buffer[..ptr] + data + buffer[ptr + |data|..], s + data, hashed, ptr + |data|)
  {
    var b, t := buffer[..ptr] + data + buffer[ptr + |data|..], s + data;
    assert b[..ptr + |data|] == t[hashed..];
    if hashed > 0 {
      var n := ptr + |data|;
      assert b[n..] == buffer[n..];
      forall k | 0 <= k < 64 - n ensures buffer[n..][k] == t[hashed - 64 + n..hashed][k] {
        assert buffer[ptr..][|data| + k] == s[hashed - 64 + ptr..hashed][|data| + k];
      }
      assert b[n..] == t[hashed - 64 + n..hashed];
    }
  }

  /** A full window starts the next one. */
  lemma WindowFull(buffer: seq<Byte>, s: seq<Byte>, hashed: nat)
    requires Window(buffer, s, hashed, 64)
    ensures Window(buffer, s, hashed + 64, 0) && buffer == s[hashed..]
  {
    assert buffer[..64] == buffer;
    assert s[hashed..hashed + 64] == s[hashed..];
  }

  lemma ChunkMixed<S, H>(mx: Mixer<S, H>, s: seq<Byte>, hashed: nat)
    requires hashed % 64 == 0 && 64 <= hashed < |s| <= hashed + 64
    ensures HashStream(mx, s) == mx.finalize(mx.mix(MixChunks(mx, s, hashed / 64), s[|s| - 64..]), |s|)
  {
    if |s| == hashed + 64 {
      var n := |s| / 64;
      assert 64 * n == |s| && n - 1 == hashed / 64;
      assert s[64 * (n - 1)..64 * n] == s[|s| - 64..];
    } else {
      assert |s| / 64 == hashed / 64;
    }
  }

  // ----- The buffered iterator form -----

  /** The size of n items of k bytes. */
  function Times(n: nat, k: nat): (p: nat) {
    n * k
  }

  lemma TimesZero(k: nat)
    ensures Times(0, k) == 0
  {
  }

  lemma TimesNext(n: nat, k: nat)
    ensures Times(n + 1, k) == Times(n, k) + k
  {
  }

  lemma {:induction false} TimesMonotone(a: nat, b: nat, k: nat)
    requires a <= b
    ensures Times(a, k) <= Times(b, k)
  {
    hide Times;
    if a < b {
      TimesMonotone(a, b - 1, k);
      TimesNext(b - 1, k);
    }
  }

  /** A whole number of items of k bytes fills the buffer. */
  predicate FillsBuffer(k: nat)
    requires k > 0
  {
    64 % k == 0
  }

  lemma BufferParts(k: nat)
    requires k > 0
    ensures var q, r := 64 / k, 64 % k; 64 == Times(q, k) + r && r < k && (FillsBuffer(k) <==> r == 0)
  {
  }

  lemma {:induction false} BytesLength(items: seq<seq<Byte>>, k: nat)
    requires forall i :: 0 <= i < |items| ==> |items[i]| == k
    ensures |Bytes(items)| == Times(|items|, k)
  {
    hide Times;
    TimesZero(k);
    if items != [] {
      var n := |items| - 1;
      BytesLength(items[..n], k);
      TimesNext(n, k);
    }
  }

  /** Fills the buffer with as many whole items as fit. */
  method Fill(buffer: array<Byte>, items: seq<seq<Byte>>, first: nat, k: nat, ghost hashed: nat) returns (next: nat, ptr: nat)
    requires buffer.Length == 64 && first <= |items| && k > 0 && forall i :: 0 <= i < |items| ==> |items[i]| == k
    requires Window(buffer[..], Bytes(items[..first]), hashed, 0)
    modifies buffer
    ensures first <= next <= |items| && ptr == Times(next - first, k) <= 64
    ensures Window(buffer[..], Bytes(items[..next]), hashed, ptr)
    ensures next < |items| ==> ptr + k > 64
  {
    hide Times, Window, Bytes;
    next, ptr := first, 0;
    TimesZero(k);
    while next != |items|
      invariant first <= next <= |items| && ptr == Times(next - first, k) <= 64
      invariant Window(buffer[..], Bytes(items[..next]), hashed, ptr)
      decreases |items| - next
    {
      TimesNext(next - first, k);
      ghost var b, s := buffer[..], Bytes(items[..next]);
      var ok, after := StoreAndAdvance(buffer, ptr, items[next], 0);
      if !ok {
        assert ptr + k > 64;
        return;
      }
      assert items[next][0..] == items[next];
      assert b[..ptr] == buffer[..ptr];
      WindowStore(b, s, hashed, ptr, items[next]);
      BytesNext(items, next);
      assert buffer[..] == b[..ptr] + items[next] + b[ptr + k..];
      next, ptr := next + 1, after;
    }
  }

  /** When items of a size that divides 64 stop fitting, the buffer is exactly full. */
  lemma ExactlyFull(k: nat, m: nat)
    requires k > 0 && FillsBuffer(k) && Times(m, k) <= 64 < Times(m, k) + k
    ensures Times(m, k) == 64
  {
    hide Times, FillsBuffer;
    BufferParts(k);
    var c := 64 / k;
    TimesNext(m, k);
    if m < c {
      TimesMonotone(m + 1, c, k);
    } else {
      TimesMonotone(c, m, k);
    }
  }

  lemma DividesFull(k: nat, m: nat)
    requires k > 0 && Times(m, k) == 64
    ensures FillsBuffer(k)
  {
    hide Times, FillsBuffer;
    BufferParts(k);
    var q := 64 / k;
    if q < m {
      TimesNext(q, k);
      TimesMonotone(q + 1, m, k);
    } else {
      TimesMonotone(m, q, k);
    }
  }

  lemma RotatedFull(b: seq<Byte>)
    requires |b| == 64
    ensures b[64..] + b[..64] == b
  {
  }

  /** hash_combine_range_impl for iterators over items of k bytes. The assertion that the
      first fill ends exactly at the buffer's end, without which None stands for the failure,
      holds if and only if k divides 64 or everything fits into the buffer. */
  method HashIterator<S, H>(mx: Mixer<S, H>, items: seq<seq<Byte>>, k: nat) returns (h: Option<H>)
    requires 0 < k && forall i :: 0 <= i < |items| ==> |items[i]| == k
    ensures h == if FillsBuffer(k) || Times(|items|, k) <= 64 then Some(HashStream(mx, Bytes(items))) else None
  {
    hide Window, Bytes, HashStream, MixChunks, Times, FillsBuffer;
    var buffer := new Byte[64](_ => 0);
    EmptyWindow(buffer[..]);
    assert items[..0] == [];
    var first, ptr := Fill(buffer, items, 0, k, 0);
    BytesLength(items, k);
    if first == |items| {
      assert items[..first] == items;
      ShortWindow(mx, buffer[..], Bytes(items), ptr);
      return Some(mx.short(buffer[..ptr]));
    }
    StoppedEarly(k, first, |items|);
    if ptr != 64 {
      return None;
    }
    var result := HashRest(mx, buffer, items, first, k);
    return Some(result);
  }

  /** An input on which the assertion fails: six items of 12 bytes, of which five take 60. */
  method HashSixPairs<S, H>(mx: Mixer<S, H>, pair: seq<Byte>) returns (h: Option<H>)
    requires |pair| == 12
    ensures h == None
  {
    h := HashIterator(mx, [pair, pair, pair, pair, pair, pair], 12);
  }

  lemma EmptyWindow(buffer: seq<Byte>)
    requires |buffer| == 64
    ensures Window(buffer, Bytes([]), 0, 0)
  {
  }

  lemma ShortWindow<S, H>(mx: Mixer<S, H>, buffer: seq<Byte>, s: seq<Byte>, ptr: nat)
    requires Window(buffer, s, 0, ptr)
    ensures ptr <= 64 && HashStream(mx, s) == mx.short(buffer[..ptr])
  {
    assert s[0..] == s;
  }

  lemma StoppedEarly(k: nat, m: nat, n: nat)
    requires 0 < k && m < n && Times(m, k) <= 64 < Times(m, k) + k
    ensures Times(n, k) > 64
    ensures FillsBuffer(k) <==> Times(m, k) == 64
  {
    hide Times, FillsBuffer;
    TimesMonotone(m + 1, n, k);
    TimesNext(m, k);
    if FillsBuffer(k) {
      ExactlyFull(k, m);
    }
    if Times(m, k) == 64 {
      DividesFull(k, m);
    }
  }

  /** The part of the iterator form after the first full buffer. */
  method HashRest<S, H>(mx: Mixer<S, H>, buffer: array<Byte>, items: seq<seq<Byte>>, begin: nat, k: nat) returns (h: H)
    requires buffer.Length == 64 && 0 < k && FillsBuffer(k) && begin < |items| && forall i :: 0 <= i < |items| ==> |items[i]| == k
    requires Window(buffer[..], Bytes(items[..begin]), 0, 64)
    modifies buffer
    ensures h == HashStream(mx, Bytes(items))
  {
    hide Window, Bytes, HashStream, MixChunks, Times, FillsBuffer;
    var first := begin;
    WindowFull(buffer[..], Bytes(items[..first]), 0);
    assert Bytes(items[..first])[0..] == Bytes(items[..first]);
    var state := mx.create(buffer[..]);
    var length := 64;
    FirstChunk(mx, Bytes(items[..first]));
    while first != |items|
      invariant begin <= first <= |items| && 64 <= length && |Bytes(items[..first])| == length
      invariant first < |items| ==> length % 64 == 0 && Window(buffer[..], Bytes(items[..first]), length, 0)
      invariant first < |items| ==> state == MixChunks(mx, Bytes(items[..first]), length / 64)
      invariant first == |items| ==> mx.finalize(state, length) == HashStream(mx, Bytes(items[..first]))
      decreases |items| - first
    {
      ghost var s := Bytes(items[..first]);
      var next, ptr := Fill(buffer, items, first, k, length);
      ghost var t := Bytes(items[..next]);
      PrefixOfNext(items, first, next);
      WindowLength(buffer[..], t, length, ptr);
      assert next > first by {
        Progress(k);
      }
      RotatedWindow(buffer[..], t, length, ptr);
      ghost var b := buffer[..];
      Rotate(buffer, ptr);
      state := mx.mix(state, buffer[..]);
      MixChunksPrefix(mx, s, t, length / 64);
      assert ptr > 0 by {
        TimesZero(k);
        TimesNext(0, k);
        TimesMonotone(1, next - first, k);
      }
      ChunkMixed(mx, t, length);
      if next < |items| {
        ExactlyFull(k, next - first);
        RotatedFull(b);
        WindowFull(buffer[..], t, length);
        NextChunk(mx, t, length);
      }
      first, length := next, length + ptr;
    }
    assert items[..first] == items;
    h := mx.finalize(state, length);
  }

  lemma FirstChunk<S, H>(mx: Mixer<S, H>, s: seq<Byte>)
    requires |s| >= 64
    ensures MixChunks(mx, s, 1) == mx.create(s[..64])
    ensures |s| == 64 ==> s[..64] == s
  {
  }

  lemma NextChunk<S, H>(mx: Mixer<S, H>, t: seq<Byte>, length: nat)
    requires length % 64 == 0 && 64 <= length && |t| == length + 64
    ensures MixChunks(mx, t, |t| / 64) == mx.mix(MixChunks(mx, t, length / 64), t[|t| - 64..])
  {
    var n := |t| / 64;
    assert n - 1 == length / 64;
    assert t[64 * (n - 1)..64 * n] == t[|t| - 64..];
  }

  lemma {:induction false} PrefixOfNext(items: seq<seq<Byte>>, i: nat, j: nat)
    requires i <= j <= |items|
    ensures Bytes(items[..i]) <= Bytes(items[..j])
  {
    BytesPrefix(items[..j], i);
    assert items[..j][..i] == items[..i];
  }

  lemma WindowLength(buffer: seq<Byte>, s: seq<Byte>, hashed: nat, ptr: nat)
    requires Window(buffer, s, hashed, ptr)
    ensures |s| == hashed + ptr && |buffer| == 64
  {
  }

  lemma Progress(k: nat)
    requires 0 < k && FillsBuffer(k)
    ensures k <= 64
  {
  }

  // ----- The recursive form -----

  /** Where the buffer pointer stands once t bytes went through the recursive form. */
  function PtrAfter(t: nat): (ptr: nat) {
    if t == 0 then 0 else (t - 1) % 64 + 1
  }

  /** The arguments from number first on never exceed what the second store can take. */
  ghost predicate Storable(items: seq<seq<Byte>>, first: nat) {
    forall i :: first <= i < |items| ==> PtrAfter(|Bytes(items[..i])|) + |items[i]| <= 128
  }

  lemma SmallItemsStorable(items: seq<seq<Byte>>)
    requires forall i :: 0 <= i < |items| ==> |items[i]| <= 64
    ensures Storable(items, 0)
  {
    forall i | 0 <= i < |items| ensures PtrAfter(|Bytes(items[..i])|) + |items[i]| <= 128 {
      assert PtrAfter(|Bytes(items[..i])|) <= 64;
    }
  }

  /** s went through the recursive form: length bytes of it are mixed in, the rest is buffered. */
  ghost predicate Held<S, H>(mx: Mixer<S, H>, buffer: seq<Byte>, state: Option<S>, s: seq<Byte>, length: nat, ptr: nat) {
    && Window(buffer, s, length, ptr) && length % 64 == 0 && (length > 0 ==> ptr > 0)
    && (length > 0 ==> state == Some(MixChunks(mx, s, length / 64)))
  }

  lemma HeldPtr<S, H>(mx: Mixer<S, H>, buffer: seq<Byte>, state: Option<S>, s: seq<Byte>, length: nat, ptr: nat)
    requires Held(mx, buffer, state, s, length, ptr)
    ensures ptr == PtrAfter(|s|) && ptr <= 64 && |buffer| == 64 && length % 64 == 0
    ensures length > 0 ==> state.Some?
  {
  }

  lemma HeldStore<S, H>(mx: Mixer<S, H>, b: seq<Byte>, state: Option<S>, s: seq<Byte>, length: nat, ptr: nat, data: seq<Byte>)
    requires Held(mx, b, state, s, length, ptr) && ptr + |data| <= 64
    ensures Held(mx, b[..ptr] + data + b[ptr + |data|..], state, s + data, length, ptr + |data|)
  {
    hide MixChunks;
    WindowStore(b, s, length, ptr, data);
    if length > 0 {
      MixChunksPrefix(mx, s, s + data, length / 64);
    }
  }

  /** Mixing a full buffer, by create the first time. */
  function MixFull<S, H>(mx: Mixer<S, H>, state: Option<S>, length: nat, buffer: seq<Byte>): (st: S)
    requires length > 0 ==> state.Some?
  {
    if length == 0 then mx.create(buffer) else mx.mix(state.value, buffer)
  }

  lemma FullMixed<S, H>(mx: Mixer<S, H>, buffer: seq<Byte>, state: Option<S>, s: seq<Byte>, length: nat)
    requires Held(mx, buffer, state, s, length, 64)
    ensures Window(buffer, s, length + 64, 0) && |s| == length + 64 && (length > 0 ==> state.Some?)
    ensures MixFull(mx, state, length, buffer) == MixChunks(mx, s, (length + 64) / 64)
  {
    hide MixChunks, Window;
    WindowFull(buffer, s, length);
    WindowLength(buffer, s, length, 64);
    if length == 0 {
      FirstChunk(mx, s);
      assert s[0..] == s;
    } else {
      NextChunk(mx, s, length);
    }
  }

  /** What the overflowing argument leaves behind after the partial store, the mix and the second store. */
  lemma SplitItem<S, H>(mx: Mixer<S, H>, b: seq<Byte>, state: Option<S>, s: seq<Byte>, length: nat, ptr: nat, data: seq<Byte>)
    requires Held(mx, b, state, s, length, ptr) && 64 - ptr < |data| <= 128 - ptr
    ensures var cut := 64 - ptr;
      var full, rest := b[..ptr] + data[..cut], ptr + |data| - 64;
      && (length > 0 ==> state.Some?)
      && Held(mx, data[cut..] + full[rest..], Some(MixFull(mx, state, length, full)), s + data, length + 64, rest)
  {
    hide MixChunks, Window, Held, MixFull;
    HeldPtr(mx, b, state, s, length, ptr);
    var cut := 64 - ptr;
    var head, tail := data[..cut], data[cut..];
    var full := b[..ptr] + head;
    HeldStore(mx, b, state, s, length, ptr, head);
    assert b[..ptr] + head + b[64..] == full;
    FullMixed(mx, full, state, s + head, length);
    FreshHeld(mx, full, MixFull(mx, state, length, full), s + head, length + 64, tail);
    assert s + head + tail == s + data by {
      assert head + tail == data;
    }
  }

  /** The second store after a mix: it leaves the buffer non-empty. */
  lemma FreshHeld<S, H>(mx: Mixer<S, H>, full: seq<Byte>, state: S, s: seq<Byte>, length: nat, tail: seq<Byte>)
    requires Window(full, s, length, 0) && 0 < |tail| <= 64
    requires length > 0 && length % 64 == 0 && 64 * (length / 64) <= |s| && state == MixChunks(mx, s, length / 64)
    ensures Held(mx, tail + full[|tail|..], Some(state), s + tail, length, |tail|)
  {
    hide MixChunks, Window;
    WindowLength(full, s, length, 0);
    WindowStore(full, s, length, 0, tail);
    assert full[..0] + tail + full[|tail|..] == tail + full[|tail|..];
    MixChunksPrefix(mx, s, s + tail, length / 64);
  }

  /** hash_combine_recursive_helper. Its arguments are their hashable data's bytes. */
  class Combiner<!S, !H> {
    const mx: Mixer<S, H>
    const buffer: array<Byte>
    var state: Option<S>

    ghost predicate Holds(s: seq<Byte>, length: nat, ptr: nat)
      reads this, buffer
    {
      Held(mx, buffer[..], state, s, length, ptr)
    }

    constructor (mx: Mixer<S, H>)
      ensures Holds([], 0, 0) && this.mx == mx && fresh(buffer)
    {
      this.mx, buffer, state := mx, new Byte[64](_ => 0), None;
      new;
      EmptyWindow(buffer[..]);
    }

    /** combine_data, where !ok stands for abort(). */
    method CombineData(length: nat, ptr: nat, data: seq<Byte>, ghost s: seq<Byte>) returns (ok: bool, length': nat, ptr': nat)
      requires Holds(s, length, ptr)
      modifies this, buffer
      ensures ok <==> PtrAfter(|s|) + |data| <= 128
      ensures ok ==> Holds(s + data, length', ptr')
    {
      hide Held, Window;
      HeldPtr(mx, buffer[..], state, s, length, ptr);
      ghost var b, st := buffer[..], state;
      ok, ptr' := StoreAndAdvance(buffer, ptr, data, 0);
      length' := length;
      if ok {
        assert data[0..] == data && b[..ptr] == b[0..ptr];
        HeldStore(mx, b, st, s, length, ptr, data);
        assert buffer[..] == b[..ptr] + data + b[ptr + |data|..];
        return;
      }
      var partialStoreSize := 64 - ptr;
      Store(buffer, ptr, data[..partialStoreSize]);
      ghost var full := b[..ptr] + data[..partialStoreSize];
      assert buffer[..] == full;
      if length == 0 {
        state, length' := Some(mx.create(buffer[..])), 64;
      } else {
        state, length' := Some(mx.mix(state.value, buffer[..])), length + 64;
      }
      assert state == Some(MixFull(mx, st, length, full));
      ptr' := 0;
      ok, ptr' := StoreAndAdvance(buffer, ptr', data, partialStoreSize);
      if ok {
        SplitItem(mx, b, st, s, length, ptr, data);
        assert buffer[..] == data[partialStoreSize..] + full[ptr'..];
      }
    }

    /** The variadic combine: done are the arguments that went before. */
    method Combine(length: nat, ptr: nat, args: seq<seq<Byte>>, ghost done: seq<seq<Byte>>) returns (h: Option<H>)
      requires Holds(Bytes(done), length, ptr)
      modifies this, buffer
      ensures h == if Storable(done + args, |done|) then Some(HashStream(mx, Bytes(done + args))) else None
      decreases |args|
    {
      hide Held, Bytes, HashStream;
      if args == [] {
        assert done + args == done;
        var result := Finish(length, ptr, Bytes(done));
        return Some(result);
      }
      ghost var all := done + args;
      ghost var done' := done + [args[0]];
      assert all[..|done|] == done && all[|done|] == args[0] && all == done' + args[1..];
      BytesNext(all, |done|);
      assert all[..|done| + 1] == done';
      var ok, length', ptr' := CombineData(length, ptr, args[0], Bytes(done));
      if !ok {
        return None;
      }
      h := Combine(length', ptr', args[1..], done');
    }

    /** The base case of combine, which flushes the buffer. */
    method Finish(length: nat, ptr: nat, ghost s: seq<Byte>) returns (h: H)
      requires Holds(s, length, ptr)
      modifies this, buffer
      ensures h == HashStream(mx, s)
    {
      hide HashStream, MixChunks;
      if length == 0 {
        ShortWindow(mx, buffer[..], s, ptr);
        return mx.short(buffer[..ptr]);
      }
      RotatedWindow(buffer[..], s, length, ptr);
      Rotate(buffer, ptr);
      state := Some(mx.mix(state.value, buffer[..]));
      ChunkMixed(mx, s, length);
      return mx.finalize(state.value, length + ptr);
    }
  }

  /** hash_combine: no run of arguments of at most 64 bytes each aborts. */
  method HashCombine<S, H>(mx: Mixer<S, H>, args: seq<seq<Byte>>) returns (h: Option<H>)
    ensures h == if Storable(args, 0) then Some(HashStream(mx, Bytes(args))) else None
    ensures (forall i :: 0 <= i < |args| ==> |args[i]| <= 64) ==> h == Some(HashStream(mx, Bytes(args)))
  {
    var helper := new Combiner(mx);
    assert [] + args == args;
    h := helper.Combine(0, 0, args, []);
    if forall i :: 0 <= i < |args| ==> |args[i]| <= 64 {
      SmallItemsStorable(args);
    }
  }
}
