/** Argument passing: the command line split into words, and the words laid out on the user
    stack for the x86 calling convention. */
module Arguments {
  import opened InodeIo
  import opened DiskFormat

  const PHYS_BASE := 0xc000_0000
  const PGSIZE := 4096
  const MAX_ARGS := 128
  const SPACE: Byte := 32

  // ---------------------------------------------------------------- words

  /** Length of the run of non-spaces at the front. */
  function WordLength(s: seq<Byte>): (n: nat)
    ensures n <= |s| && (forall i | 0 <= i < n :: s[i] != SPACE) && (n < |s| ==> s[n] == SPACE)
  {
    if s == [] || s[0] == SPACE then 0 else 1 + WordLength(s[1..])
  }

  /** The space-separated words of a string, in order. */
  function Words(s: seq<Byte>): (ws: seq<seq<Byte>>)
    decreases |s|
  {
    if s == [] then []
    else if s[0] == SPACE then Words(s[1..])
    else [s[..WordLength(s)]] + Words(s[WordLength(s)..])
  }

  lemma {:induction false} WordsAre(s: seq<Byte>, b: Byte)
    requires b !in s
    ensures forall w | w in Words(s) :: w != [] && SPACE !in w && b !in w
    decreases |s|
  {
    if s != [] {
      if s[0] == SPACE {
        WordsAre(s[1..], b);
      } else {
        var n := WordLength(s);
        WordsAre(s[n..], b);
        assert forall x | x in s[..n] :: x in s;
      }
    }
  }

  /** The string that starts at `at` in a buffer: up to the NUL. */
  function StringAt(buf: seq<Byte>, at: nat): (s: seq<Byte>)
    requires at <= |buf|
  {
    CString(buf[at..])
  }

  lemma StringStep(buf: seq<Byte>, at: nat)
    requires at < |buf|
    ensures StringAt(buf, at) == if buf[at] == 0 then [] else [buf[at]] + StringAt(buf, at + 1)
  {
    assert buf[at..][1..] == buf[at + 1..];
  }

  /** A NUL at or after `at`. */
  predicate Terminated(buf: seq<Byte>, at: nat) {
    exists k :: at <= k < |buf| && buf[k] == 0
  }

  /** Changes behind a string's NUL do not change the string. */
  lemma {:induction false} StringFrame(a: seq<Byte>, b: seq<Byte>, at: nat, end: nat)
    requires at <= end < |a| == |b| && a[end] == 0 && forall k | at <= k <= end :: b[k] == a[k]
    ensures StringAt(b, at) == StringAt(a, at)
    decreases end - at
  {
    StringStep(a, at);
    StringStep(b, at);
    if at < end {
      StringFrame(a, b, at + 1, end);
    }
  }

  // ---------------------------------------------------------------- strtok_r with " "

  /** One call: the start of the next word, cut off by a NUL, and where to go on; no word left
      otherwise. Only the byte behind the word changes. */
  method NextToken(buf: array<Byte>, start: nat) returns (found: bool, token: nat, save: nat)
    requires start <= buf.Length && Terminated(buf[..], start)
    modifies buf
    ensures save <= buf.Length && Terminated(buf[..], save) && start <= save
    ensures var ws := old(Words(StringAt(buf[..], start)));
            && (found <==> ws != [])
            && (found ==> start <= token < save <= buf.Length && Words(StringAt(buf[..], save)) == ws[1..]
                          && StringEnds(buf[..], token, ws[0], save))
    ensures forall k | 0 <= k < start :: buf[k] == old(buf[k])
    ensures !found ==> buf[..] == old(buf[..])
  {
    hide CString;
    hide StringAt;
    hide Terminated;
    hide Words;
    var s := SkipSpaces(buf, start);
    StringStep(buf[..], s);
    NoWords();
    if buf[s] == 0 {
      return false, 0, s;
    }
    token := s;
    s := SkipWord(buf, token);
    ghost var before := buf[..];
    if buf[s] != 0 {
      buf[s] := 0;
      save := s + 1;
    } else {
      save := s;
    }
    CutRest(before, buf[..], s);
    found := true;
    assert buf[token..s] == before[token..s];
  }

  /** Cutting a word off leaves what is behind it. */
  lemma CutRest(before: seq<Byte>, after: seq<Byte>, s: nat)
    requires s < |before| && Terminated(before, s) && after == before[s := 0]
    ensures var save := if before[s] == 0 then s else s + 1;
            save <= |before| && Terminated(after, save) && StringAt(after, save) == StringAt(before, save)
  {
    var end := TheNul(before, s);
    if before[s] != 0 {
      StringFrame(before, after, s + 1, end);
    } else {
      assert after == before;
    }
  }

  lemma NoWords()
    ensures Words([]) == []
  {
  }

  /** Past the spaces in front of the next word, or to the NUL. */
  method SkipSpaces(buf: array<Byte>, start: nat) returns (s: nat)
    requires start <= buf.Length && Terminated(buf[..], start)
    ensures start <= s < buf.Length && Terminated(buf[..], s) && buf[s] != SPACE
    ensures Words(StringAt(buf[..], s)) == Words(StringAt(buf[..], start))
  {
    hide CString;
    ghost var end := TheNul(buf[..], start);
    s := start;
    while buf[s] == SPACE
      invariant start <= s <= end && Words(StringAt(buf[..], s)) == Words(StringAt(buf[..], start))
      decreases end - s
    {
      StringStep(buf[..], s);
      s := s + 1;
    }
  }

  /** Past the word at `token`, to the space or NUL behind it. */
  method SkipWord(buf: array<Byte>, token: nat) returns (s: nat)
    requires token < buf.Length && Terminated(buf[..], token) && buf[token] != SPACE && buf[token] != 0
    ensures token < s < buf.Length && Terminated(buf[..], s) && (buf[s] == SPACE || buf[s] == 0)
    ensures Words(StringAt(buf[..], token)) == [buf[token..s]] + Words(StringAt(buf[..], if buf[s] == 0 then s else s + 1))
    ensures 0 !in buf[token..s]
  {
    hide CString;
    hide Words;
    ghost var end, rest := TheNul(buf[..], token), StringAt(buf[..], token);
    s := token;
    while buf[s] != SPACE && buf[s] != 0
      invariant token <= s <= end && s - token <= |rest|
      invariant rest[s - token..] == StringAt(buf[..], s) && rest[..s - token] == buf[token..s]
      invariant forall k | token <= k < s :: buf[k] != SPACE && buf[k] != 0
      decreases end - s
    {
      StringStep(buf[..], s);
      assert rest[s - token..][1..] == rest[s + 1 - token..];
      assert rest[..s + 1 - token] == rest[..s - token] + [rest[s - token]];
      s := s + 1;
    }
    StringStep(buf[..], s);
    assert forall k | 0 <= k < s - token :: rest[k] == buf[token + k];
    WordIs(rest, s - token);
    assert buf[s] != 0 ==> rest[s - token..][1..] == rest[s - token + 1..];
  }

  /** The string at `token` is `w`, and it ends before `save` or at a NUL there. */
  ghost predicate StringEnds(buf: seq<Byte>, token: nat, w: seq<Byte>, save: nat) {
    && token + |w| < |buf| && token + |w| <= save && buf[token + |w|] == 0
    && buf[token..token + |w|] == w && 0 !in w
  }

  /** A position of a NUL. */
  ghost function TheNul(buf: seq<Byte>, at: nat): (k: nat)
    requires Terminated(buf, at)
    ensures at <= k < |buf| && buf[k] == 0
  {
    var k :| at <= k < |buf| && buf[k] == 0; k
  }

  /** A run of non-spaces that a space or the end follows is the first word. */
  lemma WordIs(rest: seq<Byte>, n: nat)
    requires 0 < n <= |rest| && (forall k | 0 <= k < n :: rest[k] != SPACE) && (n < |rest| ==> rest[n] == SPACE)
    ensures Words(rest) == [rest[..n]] + Words(rest[n..])
    ensures n < |rest| ==> Words(rest[n..]) == Words(rest[n + 1..])
  {
    var m := WordLength(rest);
    assert m == n;
    if n < |rest| {
      assert rest[n..][1..] == rest[n + 1..];
    }
  }

  function Min(a: nat, b: nat): (m: nat) {
    if a < b then a else b
  }

  /** The words that are passed: of the first PGSIZE - 1 bytes, the first MAX_ARGS. */
  function Args(cmdline: seq<Byte>): (ws: seq<seq<Byte>>) {
    var ws := Words(cmdline[..Min(|cmdline|, PGSIZE - 1)]);
    ws[..Min(|ws|, MAX_ARGS)]
  }

  /** The tokens found so far are the first words, each ended by a NUL at or before `save`. */
  ghost predicate Tokens(buf: seq<Byte>, argv: seq<nat>, ws: seq<seq<Byte>>, save: nat) {
    && |argv| <= |ws| && forall i | 0 <= i < |argv| :: StringEnds(buf, argv[i], ws[i], save)
  }

  /** The loop over strtok_r: the start of each word, MAX_ARGS of them at most. */
  method Tokenize(buf: array<Byte>) returns (argv: seq<nat>)
    requires Terminated(buf[..], 0)
    modifies buf
    ensures var ws := old(Words(StringAt(buf[..], 0)));
            |argv| == Min(|ws|, MAX_ARGS) && Tokens(buf[..], argv, ws, buf.Length)
  {
    hide CString;
    hide Words;
    hide Terminated;
    ghost var ws := Words(StringAt(buf[..], 0));
    argv := [];
    var save := 0;
    while |argv| < MAX_ARGS
      invariant |argv| <= |ws| && |argv| <= MAX_ARGS && save <= buf.Length && Terminated(buf[..], save)
      invariant Tokens(buf[..], argv, ws, save) && Words(StringAt(buf[..], save)) == ws[|argv|..]
      decreases MAX_ARGS - |argv|
    {
      ghost var before, start := buf[..], save;
      var found, token: nat;
      found, token, save := NextToken(buf, save);
      if !found {
        break;
      }
      TokensKeep(before, buf[..], argv, ws, start, save);
      argv := argv + [token];
    }
    TokensWithin(buf[..], argv, ws, save);
  }

  lemma TokensWithin(buf: seq<Byte>, argv: seq<nat>, ws: seq<seq<Byte>>, save: nat)
    requires Tokens(buf, argv, ws, save) && save <= |buf|
    ensures Tokens(buf, argv, ws, |buf|)
  {
  }

  /** A later call that finds a word does not touch the earlier ones. */
  lemma TokensKeep(before: seq<Byte>, after: seq<Byte>, argv: seq<nat>, ws: seq<seq<Byte>>, start: nat, save: nat)
    requires Tokens(before, argv, ws, start) && |after| == |before| && start <= save <= |before|
    requires Words(StringAt(before, start)) != [] && forall k | 0 <= k < start :: after[k] == before[k]
    ensures Tokens(after, argv, ws, save)
  {
    forall i | 0 <= i < |argv| ensures StringEnds(after, argv[i], ws[i], save) {
      assert StringEnds(before, argv[i], ws[i], start);
      var end := argv[i] + |ws[i]|;
      if end == start {
        StringStep(before, start);
      }
      assert after[argv[i]..end] == before[argv[i]..end];
    }
  }

  // ---------------------------------------------------------------- the stack image

  /** The code writes down from PHYS_BASE without looking where the stack page ends, so the memory
      modelled is that page and the one below. */
  const ROOM := 2 * PGSIZE
  const BASE := PHYS_BASE - ROOM

  /** The words with their NULs, one behind the other. */
  function Strings(ws: seq<seq<Byte>>): (s: seq<Byte>) {
    if ws == [] then [] else ws[0] + [0] + Strings(ws[1..])
  }

  /** Where word `i` is put: the last word is highest. */
  function ArgAddress(ws: seq<seq<Byte>>, i: nat): (a: int)
    requires i <= |ws|
  {
    PHYS_BASE - |Strings(ws[i..])|
  }

  function Padding(ws: seq<seq<Byte>>): (n: nat) {
    ArgAddress(ws, 0) % 4
  }

  /** The strings lie inside the two pages. */
  predicate Addressable(ws: seq<seq<Byte>>) {
    forall k | 0 <= k <= |ws| :: BASE <= ArgAddress(ws, k) <= PHYS_BASE
  }

  function Pointers(ws: seq<seq<Byte>>, i: nat): (s: seq<Byte>)
    requires i <= |ws| && Addressable(ws)
    ensures |s| == 4 * (|ws| - i)
    decreases |ws| - i
  {
    if i == |ws| then [] else Word(ArgAddress(ws, i)) + Pointers(ws, i + 1)
  }

  function ImageSize(ws: seq<seq<Byte>>): (n: nat) {
    12 + 4 * |ws| + 4 + Padding(ws) + |Strings(ws)|
  }

  /** Where the stack pointer ends up. */
  function FinalEsp(ws: seq<seq<Byte>>): (a: int) {
    PHYS_BASE - ImageSize(ws)
  }

  predicate Fits(ws: seq<seq<Byte>>) {
    ImageSize(ws) <= ROOM
  }

  /** The image stays inside the stack page. */
  predicate FitsPage(ws: seq<seq<Byte>>) {
    ImageSize(ws) <= PGSIZE
  }

  /** From the stack pointer up: return address, argc, argv, the pointers, a null pointer, padding
      and the strings. */
  function Image(ws: seq<seq<Byte>>, pad: seq<Byte>): (s: seq<Byte>)
    requires Fits(ws) && Addressable(ws)
    ensures |pad| == Padding(ws) ==> |s| == ImageSize(ws)
  {
    Word(0) + Word(|ws|) + Word(FinalEsp(ws) + 12) + Pointers(ws, 0) + Word(0) + pad + Strings(ws)
  }

  lemma {:induction false} StringsSplit(ws: seq<seq<Byte>>, i: nat)
    requires i <= |ws|
    ensures Strings(ws) == Strings(ws[..i]) + Strings(ws[i..])
  {
    if i > 0 {
      StringsSplit(ws[1..], i - 1);
      assert ws[1..][..i - 1] == ws[..i][1..] && ws[1..][i - 1..] == ws[i..];
    } else {
      assert ws[0..] == ws;
    }
  }

  lemma {:induction false} WordsShort(s: seq<Byte>)
    ensures |Strings(Words(s))| <= |s| + 1
    decreases |s|
  {
    if s != [] {
      if s[0] == SPACE {
        WordsShort(s[1..]);
      } else {
        var n := WordLength(s);
        assert Words(s)[0] == s[..n] && Words(s)[1..] == Words(s[n..]);
        if n < |s| {
          assert Words(s[n..]) == Words(s[n..][1..]);
          WordsShort(s[n..][1..]);
        }
      }
    }
  }

  /** No command line needs more than the two pages. */
  lemma ArgsFit(cmdline: seq<Byte>)
    ensures Fits(Args(cmdline))
  {
    var s := cmdline[..Min(|cmdline|, PGSIZE - 1)];
    WordsShort(s);
    StringsSplit(Words(s), |Args(cmdline)|);
    hide Words;
    hide Strings;
    assert Args(cmdline) == Words(s)[..|Args(cmdline)|];
  }

  lemma FittingIsAddressable(ws: seq<seq<Byte>>)
    requires Fits(ws)
    ensures Addressable(ws)
  {
    forall k | 0 <= k <= |ws| ensures BASE <= ArgAddress(ws, k) <= PHYS_BASE {
      StringsSplit(ws, k);
      assert ws[0..] == ws;
    }
  }

  /** A word's string is followed by the next one's. */
  lemma NextAddress(ws: seq<seq<Byte>>, i: nat)
    requires i < |ws|
    ensures ArgAddress(ws, i) + |ws[i]| + 1 == ArgAddress(ws, i + 1)
    ensures Strings(ws[i..]) == ws[i] + [0] + Strings(ws[i + 1..])
  {
    assert ws[i..][1..] == ws[i + 1..];
  }

  // ---------------------------------------------------------------- pushing

  /** The memory holds `x` from `esp` up, and below is as it was. */
  ghost predicate Stack(page: seq<Byte>, was: seq<Byte>, esp: int, x: seq<Byte>) {
    && |page| == |was| == ROOM && BASE <= esp <= PHYS_BASE
    && page[esp - BASE..] == x && page[..esp - BASE] == was[..esp - BASE]
  }

  lemma StackStarts(page: seq<Byte>)
    requires |page| == ROOM
    ensures Stack(page, page, PHYS_BASE, [])
  {
  }

  lemma StackLower(page: seq<Byte>, was: seq<Byte>, esp: int, x: seq<Byte>, lower: int)
    requires Stack(page, was, esp, x) && BASE <= lower <= esp
    ensures Stack(page, was, lower, was[lower - BASE..esp - BASE] + x)
  {
    assert page[lower - BASE..] == page[lower - BASE..esp - BASE] + page[esp - BASE..];
    assert page[lower - BASE..esp - BASE] == page[..esp - BASE][lower - BASE..];
    assert page[..lower - BASE] == page[..esp - BASE][..lower - BASE];
  }

  lemma StackPush(page: seq<Byte>, after: seq<Byte>, was: seq<Byte>, esp: int, x: seq<Byte>, bytes: seq<Byte>)
    requires Stack(page, was, esp, x) && |after| == |page| && BASE <= esp - |bytes|
    requires after[esp - |bytes| - BASE..] == bytes + page[esp - BASE..]
    requires after[..esp - |bytes| - BASE] == page[..esp - |bytes| - BASE]
    ensures Stack(after, was, esp - |bytes|, bytes + x)
  {
    var lower := esp - |bytes|;
    assert page[..lower - BASE] == page[..esp - BASE][..lower - BASE];
  }

  /** Moves the stack pointer down over `bytes` and copies them there. */
  method Push(page: array<Byte>, esp: int, bytes: seq<Byte>, ghost was: seq<Byte>, ghost x: seq<Byte>) returns (r: int)
    requires page.Length == ROOM && Stack(page[..], was, esp, x) && BASE <= esp - |bytes|
    modifies page
    ensures r == esp - |bytes| && Stack(page[..], was, r, bytes + x)
  {
    r := esp - |bytes|;
    ghost var before := page[..];
    var o := r - BASE;
    for j := 0 to |bytes|
      invariant page[o..o + j] == bytes[..j] && page[..o] == before[..o] && page[o + j..] == before[o + j..]
    {
      page[o + j] := bytes[j];
      assert page[o..o + j + 1] == bytes[..j + 1];
    }
    assert page[..][o..] == page[o..o + |bytes|] + page[o + |bytes|..];
    assert before[o + |bytes|..] == before[esp - BASE..];
    StackPush(before, page[..], was, esp, x, bytes);
  }

  /** strlen. */
  method StringLength(buf: array<Byte>, at: nat, ghost w: seq<Byte>) returns (n: nat)
    requires at + |w| < buf.Length && buf[at + |w|] == 0 && buf[at..at + |w|] == w && 0 !in w
    ensures n == |w|
  {
    n := 0;
    assert forall k | 0 <= k < |w| :: w[k] == buf[at + k] && w[k] in w;
    while buf[at + n] != 0
      invariant 0 <= n <= |w|
      decreases |w| - n
    {
      n := n + 1;
    }
  }

  /** The strings, last word first. */
  method PushStrings(page: array<Byte>, buf: array<Byte>, argv: seq<nat>, ghost ws: seq<seq<Byte>>)
      returns (esp: int, pointers: seq<int>)
    requires page.Length == ROOM && page != buf && Addressable(ws) && |argv| == |ws|
    requires Tokens(buf[..], argv, ws, buf.Length)
    modifies page
    ensures esp == ArgAddress(ws, 0) && Stack(page[..], old(page[..]), esp, Strings(ws))
    ensures |pointers| == |ws| && forall i | 0 <= i < |ws| :: pointers[i] == ArgAddress(ws, i)
  {
    hide Stack;
    hide StringEnds;
    ghost var was := page[..];
    StackStarts(was);
    esp := PHYS_BASE;
    pointers := [];
    var i := |argv|;
    assert ws[i..] == [];
    while i > 0
      invariant 0 <= i <= |ws| && esp == ArgAddress(ws, i) && Stack(page[..], was, esp, Strings(ws[i..]))
      invariant |pointers| == |ws| - i && forall k | 0 <= k < |pointers| :: pointers[k] == ArgAddress(ws, i + k)
    {
      i := i - 1;
      NextAddress(ws, i);
      assert BASE <= ArgAddress(ws, i);
      var bytes := TokenBytes(buf, argv[i], ws[i]);
      esp := Push(page, esp, bytes, was, Strings(ws[i + 1..]));
      pointers := [esp] + pointers;
    }
    assert ws[0..] == ws;
  }

  /** The bytes of a token with its NUL. */
  method TokenBytes(buf: array<Byte>, at: nat, ghost w: seq<Byte>) returns (bytes: seq<Byte>)
    requires StringEnds(buf[..], at, w, buf.Length)
    ensures bytes == w + [0]
  {
    assert buf[..][at..at + |w|] == buf[at..at + |w|];
    var len := StringLength(buf, at, w);
    bytes := buf[at..at + len + 1];
  }

  /** The pointers, last first. */
  method PushPointers(page: array<Byte>, start: int, pointers: seq<int>, ghost ws: seq<seq<Byte>>,
                      ghost was: seq<Byte>, ghost x: seq<Byte>) returns (esp: int)
    requires page.Length == ROOM && Addressable(ws) && |pointers| == |ws| && Stack(page[..], was, start, x)
    requires (forall i | 0 <= i < |ws| :: pointers[i] == ArgAddress(ws, i)) && BASE + 4 * |ws| <= start
    modifies page
    ensures esp == start - 4 * |ws| && Stack(page[..], was, esp, Pointers(ws, 0) + x)
  {
    hide Word;
    hide Stack;
    esp := start;
    var i := |pointers|;
    assert Pointers(ws, i) + x == x;
    while i > 0
      invariant 0 <= i <= |ws| && esp == start - 4 * (|ws| - i) && Stack(page[..], was, esp, Pointers(ws, i) + x)
    {
      i := i - 1;
      esp := Push(page, esp, Word(pointers[i]), was, Pointers(ws, i + 1) + x);
      assert Pointers(ws, i) + x == Word(ArgAddress(ws, i)) + (Pointers(ws, i + 1) + x);
    }
  }

  /** strlcpy into a page. */
  method CopyCommand(cmdline: seq<Byte>) returns (buf: array<Byte>)
    requires 0 !in cmdline
    ensures fresh(buf) && buf.Length == PGSIZE && Terminated(buf[..], 0)
    ensures StringAt(buf[..], 0) == cmdline[..Min(|cmdline|, PGSIZE - 1)]
  {
    var n := Min(|cmdline|, PGSIZE - 1);
    buf := new Byte[PGSIZE](k requires 0 <= k < PGSIZE => if k < n && k < |cmdline| then cmdline[k] else 0);
    assert buf[n] == 0;
    assert buf[..][0..] == cmdline[..n] + [0] + buf[n + 1..];
    assert 0 !in cmdline[..n] by { assert forall k | 0 <= k < n :: cmdline[..n][k] in cmdline; }
    CStringOf(cmdline[..n], buf[n + 1..]);
  }

  /** push_arguments, starting from a stack pointer at the top of the user stack page, which is the
      upper half of `page`. `memory` says whether the page for the copy can be had. It writes below
      the stack page exactly when the image does not fit there. */
  method PushArguments(cmdline: seq<Byte>, page: array<Byte>, memory: bool) returns (ok: bool, esp: int)
    requires 0 !in cmdline && page.Length == ROOM
    modifies page
    ensures ok == memory && (!ok ==> page[..] == old(page[..]))
    ensures var ws := Args(cmdline);
            ok ==> Fits(ws) && Addressable(ws) && esp == FinalEsp(ws) && exists pad ::
                     |pad| == Padding(ws) && Stack(page[..], old(page[..]), esp, Image(ws, pad))
    ensures ok ==> (PHYS_BASE - PGSIZE <= esp <==> FitsPage(Args(cmdline)))
    ensures FitsPage(Args(cmdline)) ==> page[..PGSIZE] == old(page[..PGSIZE])
  {
    hide Stack;
    hide Image;
    hide Words;
    hide StringEnds;
    hide Fits;
    hide FitsPage;
    hide Addressable;
    hide FinalEsp;
    hide Padding;
    if !memory {
      return false, PHYS_BASE;
    }
    ghost var was, ws := page[..], Args(cmdline);
    ArgsFit(cmdline);
    FittingIsAddressable(ws);
    var buf := CopyCommand(cmdline);
    var argv := Tokenize(buf);
    assert Tokens(buf[..], argv, ws, buf.Length);
    var top, pointers := PushStrings(page, buf, argv, ws);
    esp := PushRest(page, top, pointers, was, ws);
    ok := true;
    ghost var pad :| |pad| == Padding(ws) && Stack(page[..], was, esp, Image(ws, pad));
    Untouched(page[..], was, ws, Image(ws, pad));
  }

  lemma Untouched(page: seq<Byte>, was: seq<Byte>, ws: seq<seq<Byte>>, x: seq<Byte>)
    requires Stack(page, was, FinalEsp(ws), x)
    ensures PHYS_BASE - PGSIZE <= FinalEsp(ws) <==> FitsPage(ws)
    ensures FitsPage(ws) ==> |page| == |was| == ROOM && page[..PGSIZE] == was[..PGSIZE]
  {
    var k := FinalEsp(ws) - BASE;
    assert FitsPage(ws) ==> page[..k][..PGSIZE] == was[..k][..PGSIZE];
  }

  /** Alignment, the null pointer, the pointers, argv, argc and the return address. */
  method PushRest(page: array<Byte>, top: int, pointers: seq<int>, ghost was: seq<Byte>, ghost ws: seq<seq<Byte>>)
      returns (esp: int)
    requires page.Length == ROOM && Fits(ws) && Addressable(ws) && top == ArgAddress(ws, 0) && |pointers| == |ws|
    requires Stack(page[..], was, top, Strings(ws)) && forall i | 0 <= i < |ws| :: pointers[i] == ArgAddress(ws, i)
    modifies page
    ensures esp == FinalEsp(ws)
    ensures exists pad :: |pad| == Padding(ws) && Stack(page[..], was, esp, Image(ws, pad))
  {
    hide *;
    RestFits(ws);
    esp := top - top % 4;
    StackRange(page[..], was, top, Strings(ws));
    ghost var pad := was[esp - BASE..top - BASE];
    StackLower(page[..], was, top, Strings(ws), esp);
    ghost var x := pad + Strings(ws);
    esp := Push(page, esp, Word(0), was, x);
    x := Word(0) + x;
    esp := PushPointers(page, esp, pointers, ws, was, x);
    x := Pointers(ws, 0) + x;
    var argv := esp;
    esp := Push(page, esp, Word(argv), was, x);
    x := Word(argv) + x;
    esp := Push(page, esp, Word(|pointers|), was, x);
    x := Word(|pointers|) + x;
    esp := Push(page, esp, Word(0), was, x);
    ImageIs(ws, pad);
    assert |pad| == Padding(ws) && Stack(page[..], was, esp, Image(ws, pad));
  }

  lemma StackRange(page: seq<Byte>, was: seq<Byte>, esp: int, x: seq<Byte>)
    requires Stack(page, was, esp, x)
    ensures |was| == ROOM && BASE <= esp <= PHYS_BASE && esp - BASE <= |was|
  {
  }

  lemma RestFits(ws: seq<seq<Byte>>)
    requires Fits(ws)
    ensures var top := ArgAddress(ws, 0);
            top % 4 == Padding(ws) && top - top % 4 - 4 - 4 * |ws| - 12 == FinalEsp(ws) >= BASE >= 0
  {
    assert ws[0..] == ws;
  }

  lemma ImageIs(ws: seq<seq<Byte>>, pad: seq<Byte>)
    requires Fits(ws) && Addressable(ws)
    ensures Word(0) + (Word(|ws|) + (Word(FinalEsp(ws) + 12) + (Pointers(ws, 0) + (Word(0) + (pad + Strings(ws)))))) == Image(ws, pad)
  {
    hide Word;
    hide Pointers;
    hide Strings;
    Regrouped(Word(0), Word(|ws|), Word(FinalEsp(ws) + 12), Pointers(ws, 0), Word(0), pad, Strings(ws));
  }

  lemma Regrouped(a: seq<Byte>, b: seq<Byte>, c: seq<Byte>, d: seq<Byte>, e: seq<Byte>, f: seq<Byte>, g: seq<Byte>)
    ensures a + (b + (c + (d + (e + (f + g))))) == a + b + c + d + e + f + g
  {
  }

  // ---------------------------------------------------------------- reading it back

  /** The word at address `a`, when the bytes from `esp` up are `x`. */
  function WordAt(x: seq<Byte>, esp: int, a: int): (w: nat)
    requires esp <= a && a + 4 <= esp + |x|
  {
    FromWord(x[a - esp..a - esp + 4])
  }

  /** The string at address `a`. */
  function TextAt(x: seq<Byte>, esp: int, a: int): (s: seq<Byte>)
    requires esp <= a <= esp + |x|
  {
    CString(x[a - esp..])
  }

  lemma {:induction false} PointerAt(ws: seq<seq<Byte>>, from: nat, i: nat)
    requires Addressable(ws) && from <= i < |ws|
    ensures Pointers(ws, from)[4 * (i - from)..4 * (i - from) + 4] == Word(ArgAddress(ws, i))
    decreases i - from
  {
    hide Word;
    var p := Pointers(ws, from);
    assert p == Word(ArgAddress(ws, from)) + Pointers(ws, from + 1);
    if from < i {
      PointerAt(ws, from + 1, i);
      assert p[4 * (i - from)..4 * (i - from) + 4] == Pointers(ws, from + 1)[4 * (i - from - 1)..4 * (i - from - 1) + 4];
    }
  }

  lemma FixedWords(ws: seq<seq<Byte>>, pad: seq<Byte>)
    requires Fits(ws) && Addressable(ws) && |pad| == Padding(ws)
    ensures FinalEsp(ws) + 12 >= 0
    ensures Parts(Image(ws, pad), Word(0), Word(|ws|), Word(FinalEsp(ws) + 12), Pointers(ws, 0), Word(0), |pad|, Strings(ws))
  {
    hide *;
    ImageParts(ws, pad);
    Slices(Image(ws, pad), Word(0), Word(|ws|), Word(FinalEsp(ws) + 12), Pointers(ws, 0), Word(0), pad, Strings(ws));
  }

  lemma ImageParts(ws: seq<seq<Byte>>, pad: seq<Byte>)
    requires Fits(ws) && Addressable(ws) && |pad| == Padding(ws)
    ensures FinalEsp(ws) + 12 >= 0 && |Image(ws, pad)| == 16 + 4 * |ws| + |pad| + |Strings(ws)|
    ensures Image(ws, pad) == Word(0) + Word(|ws|) + Word(FinalEsp(ws) + 12) + Pointers(ws, 0) + Word(0) + pad + Strings(ws)
  {
    hide Word;
    hide Pointers;
    hide Strings;
  }

  lemma Slices(x: seq<Byte>, a: seq<Byte>, b: seq<Byte>, c: seq<Byte>, d: seq<Byte>, e: seq<Byte>, f: seq<Byte>, g: seq<Byte>)
    requires |a| == |b| == |c| == |e| == 4 && x == a + b + c + d + e + f + g
    ensures Parts(x, a, b, c, d, e, |f|, g)
  {
  }

  /** Where the parts of an image are. */
  ghost predicate Parts(x: seq<Byte>, a: seq<Byte>, b: seq<Byte>, c: seq<Byte>, d: seq<Byte>, e: seq<Byte>, gap: nat, g: seq<Byte>) {
    var n := 12 + |d|;
    && |x| == n + 4 + gap + |g|
    && x[..4] == a && x[4..8] == b && x[8..12] == c && x[12..n] == d && x[n..n + 4] == e && x[n + 4 + gap..] == g
  }

  /** What the program finds: return address 0, argc, argv, the null pointer behind the pointers,
      and a stack pointer aligned to 4. */
  lemma ReadBack(ws: seq<seq<Byte>>, pad: seq<Byte>)
    requires Fits(ws) && Addressable(ws) && |pad| == Padding(ws)
    ensures var x, esp := Image(ws, pad), FinalEsp(ws);
            && WordAt(x, esp, esp) == 0 && WordAt(x, esp, esp + 4) == |ws| && WordAt(x, esp, esp + 8) == esp + 12
            && WordAt(x, esp, esp + 12 + 4 * |ws|) == 0 && esp % 4 == 0
  {
    hide Word;
    hide FromWord;
    hide Image;
    hide Strings;
    FixedWords(ws, pad);
    WordRoundTrip(0);
    WordRoundTrip(|ws|);
    WordRoundTrip(FinalEsp(ws) + 12);
    RestFits(ws);
  }

  /** And argument `i`: its pointer leads to a NUL-terminated copy of word `i`, above the pointers
      and apart from the other words. */
  lemma ReadBackArgument(ws: seq<seq<Byte>>, pad: seq<Byte>, i: nat)
    requires Fits(ws) && Addressable(ws) && |pad| == Padding(ws) && i < |ws| && 0 !in ws[i]
    ensures var x, esp := Image(ws, pad), FinalEsp(ws);
            var p := WordAt(x, esp, esp + 12 + 4 * i);
            && esp + 16 + 4 * |ws| <= p && p + |ws[i]| + 1 <= PHYS_BASE
            && TextAt(x, esp, p) == ws[i]
            && (i + 1 < |ws| ==> p + |ws[i]| + 1 == WordAt(x, esp, esp + 12 + 4 * (i + 1)))
  {
    hide Word;
    hide FromWord;
    hide Image;
    PointerIs(ws, pad, i);
    NextAddress(ws, i);
    if i + 1 < |ws| {
      PointerIs(ws, pad, i + 1);
    }
    StringIs(ws, pad, i);
  }

  lemma PointerIs(ws: seq<seq<Byte>>, pad: seq<Byte>, i: nat)
    requires Fits(ws) && Addressable(ws) && |pad| == Padding(ws) && i < |ws|
    ensures WordAt(Image(ws, pad), FinalEsp(ws), FinalEsp(ws) + 12 + 4 * i) == ArgAddress(ws, i)
  {
    hide Word;
    hide FromWord;
    FixedWords(ws, pad);
    PointerAt(ws, 0, i);
    WordRoundTrip(ArgAddress(ws, i));
    var x := Image(ws, pad);
    hide Image;
    assert x[12 + 4 * i..16 + 4 * i] == x[12..12 + 4 * |ws|][4 * i..4 * i + 4];
  }

  lemma StringIs(ws: seq<seq<Byte>>, pad: seq<Byte>, i: nat)
    requires Fits(ws) && Addressable(ws) && |pad| == Padding(ws) && i < |ws| && 0 !in ws[i]
    ensures FinalEsp(ws) + 16 + 4 * |ws| <= ArgAddress(ws, i) <= PHYS_BASE
    ensures TextAt(Image(ws, pad), FinalEsp(ws), ArgAddress(ws, i)) == ws[i]
  {
    hide Word;
    hide FromWord;
    FixedWords(ws, pad);
    StringsSplit(ws, i);
    NextAddress(ws, i);
    assert ws[0..] == ws;
    var x, o := Image(ws, pad), 16 + 4 * |ws| + |pad|;
    hide Image;
    var k := |Strings(ws[..i])|;
    assert ArgAddress(ws, i) - FinalEsp(ws) == o + k;
    assert x[o + k..] == x[o..][k..] == Strings(ws[i..]);
    CStringOf(ws[i], Strings(ws[i + 1..]));
  }

  /** Nothing tests the limit: of a single word of PGSIZE - 1 letters only the letters are written in
      the stack page, and the twenty bytes of pointers and counts below it. */
  lemma LongLineDoesNotFit()
    ensures var line: seq<Byte> := seq(PGSIZE - 1, _ => 97);
            && 0 !in line && Args(line) == [line] && !FitsPage(Args(line))
            && FinalEsp(Args(line)) == PHYS_BASE - PGSIZE - 20
  {
    var line: seq<Byte> := seq(PGSIZE - 1, _ => 97);
    assert line[..PGSIZE - 1] == line && line[|line|..] == [];
    WordIs(line, |line|);
    NoWords();
    hide Words;
    assert Args(line) == [line];
    assert Strings([line]) == line + [0] + Strings([line][1..]);
    assert [line][0..] == [line];
  }

  /** The words passed are words of the command line: not empty, and without spaces and NULs. */
  lemma ArgsAreWords(cmdline: seq<Byte>)
    requires 0 !in cmdline
    ensures |Args(cmdline)| <= MAX_ARGS && forall w | w in Args(cmdline) :: w != [] && SPACE !in w && 0 !in w
  {
    var s := cmdline[..Min(|cmdline|, PGSIZE - 1)];
    assert 0 !in s by { assert forall k | 0 <= k < |s| :: s[k] in cmdline; }
    WordsAre(s, 0);
    assert forall w | w in Args(cmdline) :: w in Words(s);
  }
}
