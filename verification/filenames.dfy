/** `shortenFilename` of the Go application: display names of at most `maxLength` characters
    built from the stem, an ellipsis and the extension. Go strings are UTF-8 byte strings,
    and the function mixes character (rune) counts with one byte slice, so its result is
    modelled as bytes: the encoding of a character string, or a byte slice of one. */
module FileNames {

  newtype byte = b: int | 0 <= b < 256

  // ---------------------------------------------------------------------------
  // UTF-8
  // ---------------------------------------------------------------------------

  /** A continuation byte `10xxxxxx`. */
  predicate IsContinuation(b: byte)
  {
    0x80 <= b < 0xC0
  }

  /** The number of bytes of a sequence that starts with lead byte `b`, or 0 when `b`
      cannot start one. */
  function SequenceLength(b: byte): nat
  {
    if b < 0x80 then 1
    else if b < 0xC0 then 0
    else if b < 0xE0 then 2
    else if b < 0xF0 then 3
    else if b < 0xF8 then 4
    else 0
  }

  /** The UTF-8 encoding of one character. */
  function EncodeRune(c: char): (bs: seq<byte>)
    ensures 1 <= |bs| <= 4
    ensures |bs| == 1 <==> c as int < 0x80
    ensures |bs| == 2 <==> 0x80 <= c as int < 0x800
    ensures SequenceLength(bs[0]) == |bs|
    ensures forall k :: 1 <= k < |bs| ==> IsContinuation(bs[k])
  {
    var v := c as int;
    if v < 0x80 then [v as byte]
    else if v < 0x800 then [(0xC0 + v / 64) as byte, (0x80 + v % 64) as byte]
    else if v < 0x10000 then
      [(0xE0 + v / 4096) as byte, (0x80 + v / 64 % 64) as byte, (0x80 + v % 64) as byte]
    else
      [(0xF0 + v / 262144) as byte, (0x80 + v / 4096 % 64) as byte,
       (0x80 + v / 64 % 64) as byte, (0x80 + v % 64) as byte]
  }

  /** The UTF-8 encoding of a string: Go's `string(runes)`. */
  function Utf8(s: string): (bs: seq<byte>)
    ensures |bs| >= |s|
  {
    if s == [] then [] else EncodeRune(s[0]) + Utf8(s[1..])
  }

  lemma {:induction false} Utf8Append(a: string, b: string)
    ensures Utf8(a + b) == Utf8(a) + Utf8(b)
    decreases |a|
  {
    if a != [] {
      assert (a + b)[1..] == a[1..] + b;
      Utf8Append(a[1..], b);
    } else {
      assert a + b == b;
    }
  }

  predicate IsAscii(s: string)
  {
    forall k :: 0 <= k < |s| ==> s[k] as int < 0x80
  }

  /** An ASCII string encodes to one byte per character. */
  lemma {:induction false} Utf8Ascii(s: string)
    requires IsAscii(s)
    ensures |Utf8(s)| == |s|
    ensures forall k :: 0 <= k < |s| ==> Utf8(s)[k] as int == s[k] as int
    decreases |s|
  {
    if s != [] {
      Utf8Ascii(s[1..]);
    }
  }

  /** The bytes cut into whole encoded characters: each lead byte is followed by exactly
      the continuation bytes it announces. */
  predicate WholeRunes(bs: seq<byte>)
    decreases |bs|
  {
    bs == [] ||
    var n := SequenceLength(bs[0]);
    && 1 <= n <= |bs|
    && (forall k :: 1 <= k < n ==> IsContinuation(bs[k]))
    && WholeRunes(bs[n..])
  }

  /** Every encoded string cuts into whole characters. */
  lemma {:induction false} Utf8WholeRunes(s: string)
    ensures WholeRunes(Utf8(s))
    decreases |s|
  {
    if s != [] {
      var e := EncodeRune(s[0]);
      Utf8WholeRunes(s[1..]);
      assert Utf8(s)[|e|..] == Utf8(s[1..]);
    }
  }

  // ---------------------------------------------------------------------------
  // filepath.Ext and strings.TrimSuffix
  // ---------------------------------------------------------------------------

  /** The path separator of a Unix build. */
  predicate IsPathSeparator(c: char)
  {
    c == '/'
  }

  /** The start of the extension: the last '.' of the final path element, or `|s|` when it
      has none. The scan works backwards from `i`. */
  function ExtStart(s: string, i: nat): (j: nat)
    requires i <= |s|
    ensures j <= |s|
    decreases i
  {
    if i == 0 || IsPathSeparator(s[i - 1]) then |s|
    else if s[i - 1] == '.' then i - 1
    else ExtStart(s, i - 1)
  }

  /** `filepath.Ext(path)`: the suffix from the last '.' of the final element, or "". */
  function Ext(s: string): string
  {
    s[ExtStart(s, |s|)..]
  }

  /** What `filepath.Ext` promises: the result is a suffix of the path that is either empty,
      when the final element has no '.', or starts with the final element's last '.'. */
  lemma {:induction false} ExtShape(s: string)
    ensures var e := Ext(s);
      && |e| <= |s| && s[|s| - |e|..] == e
      && (e != [] ==> e[0] == '.' && forall k :: 1 <= k < |e| ==> e[k] != '.' && !IsPathSeparator(e[k]))
      && (e == [] ==> forall k :: 0 <= k < |s| && s[k] == '.' ==> exists m :: k < m < |s| && IsPathSeparator(s[m]))
  {
    ExtScan(s, |s|);
  }

  /** The backward scan, started at `i` with no '.' and no separator in `s[i..]`, stops at
      the last '.' before the final separator, or reports none. */
  lemma {:induction false} ExtScan(s: string, i: nat)
    requires i <= |s|
    requires forall k :: i <= k < |s| ==> s[k] != '.' && !IsPathSeparator(s[k])
    ensures var j := ExtStart(s, i);
      && (j < |s| ==> s[j] == '.' && forall k :: j < k < |s| ==> s[k] != '.' && !IsPathSeparator(s[k]))
      && (j == |s| ==> forall k :: 0 <= k < |s| && s[k] == '.' ==> exists m :: k < m < |s| && IsPathSeparator(s[m]))
    decreases i
  {
    if i == 0 {
    } else if IsPathSeparator(s[i - 1]) {
      forall k | 0 <= k < |s| && s[k] == '.'
        ensures exists m :: k < m < |s| && IsPathSeparator(s[m])
      {
        assert k < i - 1;
        assert IsPathSeparator(s[i - 1]);
      }
    } else if s[i - 1] != '.' {
      ExtScan(s, i - 1);
    }
  }

  /** The backward scan stops at a '.' with no '.' and no separator after it. */
  lemma {:induction false} ExtStartFinds(s: string, i: nat, j: nat)
    requires j < i <= |s| && s[j] == '.'
    requires forall k :: j < k < i ==> s[k] != '.' && !IsPathSeparator(s[k])
    ensures ExtStart(s, i) == j
    decreases i
  {
    if i - 1 > j {
      ExtStartFinds(s, i - 1, j);
    }
  }

  /** `strings.TrimSuffix(filename, ext)` for the extension of `filename`: the stem. */
  function Stem(s: string): (r: string)
    ensures r + Ext(s) == s
  {
    var e := Ext(s);
    assert s[..|s| - |e|] + s[|s| - |e|..] == s;
    s[..|s| - |e|]
  }

  // ---------------------------------------------------------------------------
  // shortenFilename
  // ---------------------------------------------------------------------------

  /** `maxLength - RuneCount(ext) - 3`: the characters of the stem that fit. */
  function Available(filename: string, maxLength: int): int
  {
    maxLength - |Ext(filename)| - 3
  }

  /** `shortenFilename(filename, maxLength)` as written. A name of at most `maxLength`
      characters comes back unchanged. A longer one keeps its extension and as much of its
      stem as fits before "..."; when not even one stem character fits, the first
      `maxLength - 3` BYTES of the name are kept, which cuts through a multi-byte character
      when one straddles that position. The byte slice panics when `maxLength < 3`. */
  function ShortenFilename(filename: string, maxLength: int): (r: seq<byte>)
    requires |filename| <= maxLength || maxLength >= 3
  {
    if |filename| <= maxLength then Utf8(filename)
    else
      var available := Available(filename, maxLength);
      if available < 1 then Utf8(filename)[..maxLength - 3] + Utf8("...")
      else
        var name := Stem(filename);
        if |name| > available then Utf8(name[..available] + "..." + Ext(filename))
        else Utf8(filename)
  }

  /** The character string `shortenFilename` means to produce: the byte-slice branch keeps
      the first `maxLength - 3` characters rather than bytes. */
  function ShortenRunes(filename: string, maxLength: int): (r: string)
    requires |filename| <= maxLength || maxLength >= 3
  {
    if |filename| <= maxLength then filename
    else
      var available := Available(filename, maxLength);
      if available < 1 then filename[..maxLength - 3] + "..."
      else
        var name := Stem(filename);
        if |name| > available then name[..available] + "..." + Ext(filename)
        else filename
  }

  /** The stem of a name longer than `maxLength` never fits in the characters left for it,
      so the final `return filename` of the stem branch is unreachable. */
  lemma LongStemDoesNotFit(filename: string, maxLength: int)
    requires |filename| > maxLength
    ensures |Stem(filename)| > Available(filename, maxLength)
  {
  }

  /** The character-level shortening: a name within the limit is unchanged, a longer one
      becomes exactly `maxLength` characters ending in "..." or in "..." and the
      extension, shortening is idempotent, and its encoding is whole characters. */
  lemma ShortenRunesFacts(filename: string, maxLength: int)
    requires |filename| <= maxLength || maxLength >= 3
    ensures var r := ShortenRunes(filename, maxLength);
      && (|filename| <= maxLength <==> r == filename)
      && (|filename| > maxLength ==> |r| == maxLength)
      && (|filename| > maxLength && Available(filename, maxLength) >= 1 ==>
            r == Stem(filename)[..Available(filename, maxLength)] + "..." + Ext(filename))
      && (|filename| > maxLength && Available(filename, maxLength) < 1 ==>
            r == filename[..maxLength - 3] + "...")
      && ShortenRunes(r, maxLength) == r
      && WholeRunes(Utf8(r))
  {
    if |filename| > maxLength {
      LongStemDoesNotFit(filename, maxLength);
    }
    Utf8WholeRunes(ShortenRunes(filename, maxLength));
  }

  /** Where the two agree: the as-written function returns the encoding of the character
      result, except in the byte-slice branch, where it does so when the first
      `maxLength - 3` characters are ASCII. In every branch a shortened result has
      exactly `maxLength` characters or, in the byte-slice branch, `maxLength` bytes. */
  lemma ShortenFilenameAgrees(filename: string, maxLength: int)
    requires |filename| <= maxLength || maxLength >= 3
    ensures var r := ShortenFilename(filename, maxLength);
      && (|filename| <= maxLength || Available(filename, maxLength) >= 1 ==>
            r == Utf8(ShortenRunes(filename, maxLength)))
      && (|filename| > maxLength && Available(filename, maxLength) < 1 ==>
            |r| == maxLength &&
            (IsAscii(filename[..maxLength - 3]) ==> r == Utf8(ShortenRunes(filename, maxLength))))
  {
    if |filename| > maxLength {
      LongStemDoesNotFit(filename, maxLength);
      if Available(filename, maxLength) < 1 {
        ByteSliceBranch(filename, maxLength - 3);
      }
    }
  }

  /** The byte-slice branch keeps `k` bytes and appends three, and when the first `k`
      characters are ASCII those `k` bytes encode exactly them. */
  lemma ByteSliceBranch(filename: string, k: nat)
    requires k < |filename|
    ensures |Utf8(filename)[..k] + Utf8("...")| == k + 3
    ensures IsAscii(filename[..k]) ==> Utf8(filename)[..k] + Utf8("...") == Utf8(filename[..k] + "...")
  {
    var p := filename[..k];
    assert filename == p + filename[k..];
    Utf8Append(p, filename[k..]);
    Utf8Append(p, "...");
    if IsAscii(p) {
      Utf8Ascii(p);
      assert Utf8(filename)[..k] == Utf8(p);
    }
    assert Utf8("...") == [46 as byte, 46 as byte, 46 as byte];
  }

  /** A name whose 12-character extension leaves no room for the stem, and whose 12th
      character is two bytes long: the as-written function keeps 11 ASCII bytes and the
      first byte of that character, so its result does not cut into whole characters (a
      lead byte followed by '.'), while the character-level shortening encodes cleanly. */
  lemma ByteSliceSplitsRune()
    ensures var name := "report_2024\U{0436}.backup_copy";
      && |name| == 24 && Ext(name) == ".backup_copy" && Available(name, 15) == 0
      && !WholeRunes(ShortenFilename(name, 15))
      && WholeRunes(Utf8(ShortenRunes(name, 15)))
  {
    var name := "report_2024\U{0436}.backup_copy";
    ExtStartFinds(name, |name|, 12);
    assert name == "report_2024" + ['\U{0436}'] + ".backup_copy";
    ByteSliceCut("report_2024", '\U{0436}', ".backup_copy");
  }

  /** The byte slice of a 15-character limit cuts through a two-byte 12th character when
      the extension takes 12 characters and the 11 before it are ASCII. */
  lemma ByteSliceCut(head: string, c: char, ext: string)
    requires IsAscii(head) && |head| == 11 && 0x80 <= c as int < 0x800
    requires |ext| == 12 && Ext(head + [c] + ext) == ext
    ensures !WholeRunes(ShortenFilename(head + [c] + ext, 15))
    ensures WholeRunes(Utf8(ShortenRunes(head + [c] + ext, 15)))
  {
    var name := head + [c] + ext;
    var e := EncodeRune(c);
    assert Utf8(name)[..12] == Utf8(head) + [e[0]] by {
      Utf8Append(head + [c], ext);
      Utf8Append(head, [c]);
      Utf8Ascii(head);
      assert Utf8([c]) == e + Utf8([]);
    }
    var tail := [e[0]] + Utf8("...");
    assert Utf8("...") == [46 as byte, 46, 46];
    var r := ShortenFilename(name, 15);
    assert r == Utf8(head) + tail;
    assert !WholeRunes(tail) by {
      assert SequenceLength(tail[0]) == 2;
      assert !IsContinuation(tail[1]);
    }
    if WholeRunes(r) {
      WholeRunesDrop(head, tail);
      assert false;
    }
    Utf8WholeRunes(ShortenRunes(name, 15));
  }

  /** Whole characters stay whole after an encoded prefix is removed. */
  lemma {:induction false} WholeRunesDrop(p: string, rest: seq<byte>)
    requires WholeRunes(Utf8(p) + rest)
    ensures WholeRunes(rest)
    decreases |p|
  {
    if p != [] {
      var e := EncodeRune(p[0]);
      assert Utf8(p) + rest == e + (Utf8(p[1..]) + rest);
      assert (Utf8(p) + rest)[|e|..] == Utf8(p[1..]) + rest;
      WholeRunesDrop(p[1..], rest);
    } else {
      assert Utf8(p) + rest == rest;
    }
  }
}
