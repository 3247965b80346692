/** Headers of other clients: any names, any letter case, any padding, either line end. */
module HeaderTexts {
  import opened Bytes
  import opened Wrappers
  import opened Sequences
  import GoStrings
  import opened FrameFormat

  // ----- white space in UTF-8 -----

  /** The UTF-8 encoding of a character up to U+FFFF. */
  function Utf8(c: char): bytes
    requires c as int < 0x1_0000
  {
    var n := c as int;
    if n < 0x80 then [n]
    else if n < 0x800 then [0xC0 + n / 64, 0x80 + n % 64]
    else [0xE0 + n / 4096, 0x80 + n / 64 % 64, 0x80 + n % 64]
  }

  lemma LeadingSpaceOf(c: char, rest: bytes)
    requires GoStrings.IsSpace(c)
    ensures LeadingSpace(Utf8(c) + rest) == |Utf8(c)|
  {
  }

  lemma LeadingSpaceIs(s: bytes) returns (c: char)
    requires LeadingSpace(s) > 0
    ensures GoStrings.IsSpace(c) && s[..LeadingSpace(s)] == Utf8(c)
  {
    c := if LeadingSpace(s) == 1 then s[0] as char
         else if LeadingSpace(s) == 2 then s[1] as char
         else ((s[0] as int - 0xE0) * 4096 + (s[1] as int - 0x80) * 64 + (s[2] as int - 0x80)) as char;
  }

  /** The trimming of bytes begins where a white-space character is encoded. */
  lemma LeadingSpaceIff(s: bytes)
    ensures LeadingSpace(s) > 0 <==> exists c :: GoStrings.IsSpace(c) && Utf8(c) <= s
  {
    if LeadingSpace(s) > 0 {
      var c := LeadingSpaceIs(s);
      assert Utf8(c) == s[..LeadingSpace(s)] <= s;
    }
    if c :| GoStrings.IsSpace(c) && Utf8(c) <= s {
      assert s == Utf8(c) + s[|Utf8(c)|..];
      LeadingSpaceOf(c, s[|Utf8(c)|..]);
    }
  }

  lemma TrailingSpaceOf(s: bytes, c: char)
    requires GoStrings.IsSpace(c)
    ensures TrailingSpace(s + Utf8(c)) == |Utf8(c)|
  {
    var t, n := s + Utf8(c), |Utf8(c)|;
    assert t[|t| - n..] == Utf8(c) && Utf8(c) + [] == Utf8(c);
    LeadingSpaceOf(c, []);
    if n > 1 {
      assert t[|t| - 1..] == [Utf8(c)[n - 1]];
    }
    if n > 2 {
      assert t[|t| - 2..] == [Utf8(c)[n - 2], Utf8(c)[n - 1]];
    }
  }

  // ----- white space around a text -----

  function Encoded(pad: string): bytes
    requires GoStrings.AllSpace(pad)
  {
    if pad == "" then []
    else
      assert pad[0] in pad;
      Utf8(pad[0]) + Encoded(pad[1..])
  }

  lemma {:induction false} EncodedSnoc(pad: string, c: char)
    requires GoStrings.AllSpace(pad) && GoStrings.IsSpace(c)
    ensures Encoded(pad + [c]) == Encoded(pad) + Utf8(c)
  {
    if pad == "" {
      assert pad + [c] == [c] && [c][1..] == "" && Utf8(c) + [] == Utf8(c);
    } else {
      assert pad[0] in pad;
      EncodedSnoc(pad[1..], c);
      ConsConcat(pad, [c]);
      Assoc(Utf8(pad[0]), Encoded(pad[1..]), Utf8(c));
    }
  }

  lemma {:induction false} TrimLeftOfPadded(pad: string, s: bytes)
    requires GoStrings.AllSpace(pad)
    ensures TrimLeft(Encoded(pad) + s) == TrimLeft(s)
  {
    if pad == "" {
      assert Encoded(pad) + s == s;
    } else {
      assert pad[0] in pad;
      var rest := Encoded(pad[1..]) + s;
      LeadingSpaceOf(pad[0], rest);
      Assoc(Utf8(pad[0]), Encoded(pad[1..]), s);
      assert (Utf8(pad[0]) + rest)[|Utf8(pad[0])|..] == rest;
      TrimLeftOfPadded(pad[1..], s);
    }
  }

  lemma {:induction false} TrimRightOfPadded(s: bytes, pad: string)
    requires GoStrings.AllSpace(pad)
    ensures TrimRight(s + Encoded(pad)) == TrimRight(s)
  {
    if pad == "" {
      assert s + Encoded(pad) == s;
    } else {
      var front, c := pad[..|pad| - 1], pad[|pad| - 1];
      assert c in pad && pad == front + [c];
      var start := s + Encoded(front);
      EncodedSnoc(front, c);
      Assoc(s, Encoded(front), Utf8(c));
      TrailingSpaceOf(start, c);
      assert (start + Utf8(c))[..|start|] == start;
      TrimRightOfPadded(s, front);
    }
  }

  /** Neither end is white space. */
  ghost predicate Bare(s: bytes) {
    LeadingSpace(s) == 0 && TrailingSpace(s) == 0
  }

  /** White space with the text somewhere in it. */
  ghost predicate Around(s: bytes, before: string, text: bytes, after: string) {
    GoStrings.AllSpace(before) && GoStrings.AllSpace(after) && s == Encoded(before) + text + Encoded(after)
  }

  /** A character does not begin with a byte that continues one. */
  predicate Continues(b: byte) {
    0x80 <= b < 0xC0
  }

  lemma BeginsCharacter(pad: string)
    requires GoStrings.AllSpace(pad) && pad != ""
    ensures Encoded(pad) != [] && !Continues(Encoded(pad)[0])
  {
    assert pad[0] in pad;
  }

  /** A text followed by a character begins as it does without. */
  lemma StillBare(text: bytes, tail: bytes)
    requires LeadingSpace(text) == 0 && text != [] && (tail != [] ==> !Continues(tail[0]))
    ensures LeadingSpace(text + tail) == 0
  {
    if tail == [] {
      assert text + tail == text;
    } else if |text| == 1 {
      assert (text + tail)[1] == tail[0];
    } else if |text| == 2 {
      assert (text + tail)[2] == tail[0];
    }
  }

  lemma FirstPiece(s: bytes, piece: bytes)
    requires |piece| <= |s| && s[..|piece|] == piece
    ensures s == piece + s[|piece|..]
  {
  }

  lemma {:induction false} TrimLeftSplits(s: bytes) returns (pad: string)
    ensures GoStrings.AllSpace(pad) && s == Encoded(pad) + TrimLeft(s) && LeadingSpace(TrimLeft(s)) == 0
    decreases |s|
  {
    if LeadingSpace(s) == 0 {
      pad := "";
    } else {
      var c := LeadingSpaceIs(s);
      var rest := s[LeadingSpace(s)..];
      var more := TrimLeftSplits(rest);
      pad := [c] + more;
      FirstPiece(s, Utf8(c));
      assert pad[1..] == more;
      Assoc(Utf8(c), Encoded(more), TrimLeft(rest));
    }
  }

  lemma TrailingSpaceIs(s: bytes) returns (c: char)
    requires TrailingSpace(s) > 0
    ensures GoStrings.IsSpace(c) && s[|s| - TrailingSpace(s)..] == Utf8(c)
  {
    var last := s[|s| - TrailingSpace(s)..];
    assert LeadingSpace(last) == |last|;
    c := LeadingSpaceIs(last);
    assert last[..|last|] == last;
  }

  lemma LastPiece(s: bytes, piece: bytes)
    requires |piece| <= |s| && s[|s| - |piece|..] == piece
    ensures s == s[..|s| - |piece|] + piece
  {
  }

  lemma {:induction false} TrimRightSplits(s: bytes) returns (pad: string)
    ensures GoStrings.AllSpace(pad) && s == TrimRight(s) + Encoded(pad) && TrailingSpace(TrimRight(s)) == 0
    decreases |s|
  {
    if TrailingSpace(s) == 0 {
      pad := "";
      assert s + Encoded("") == s;
    } else {
      var c := TrailingSpaceIs(s);
      var rest := s[..|s| - TrailingSpace(s)];
      var more := TrimRightSplits(rest);
      pad := more + [c];
      EncodedSnoc(more, c);
      LastPiece(s, Utf8(c));
      Assoc(TrimRight(rest), Encoded(more), Utf8(c));
    }
  }

  lemma PrefixStaysBare(s: bytes, text: bytes)
    requires LeadingSpace(s) == 0 && text <= s
    ensures LeadingSpace(text) == 0
  {
  }

  lemma TrimSpaceOfPadded(s: bytes, before: string, text: bytes, after: string)
    requires Around(s, before, text, after) && Bare(text)
    ensures TrimSpace(s) == text
  {
    Assoc(Encoded(before), text, Encoded(after));
    TrimLeftOfPadded(before, text + Encoded(after));
    if text == [] {
      assert text + Encoded(after) == Encoded(after) == Encoded(after) + [];
      TrimLeftOfPadded(after, []);
    } else {
      if after != "" {
        BeginsCharacter(after);
      }
      StillBare(text, Encoded(after));
      TrimRightOfPadded(text, after);
    }
  }

  /** TrimSpace on bytes returns the one text with neither end white space and only white space around it. */
  lemma TrimSpaceIff(s: bytes, text: bytes)
    ensures TrimSpace(s) == text <==> Bare(text) && exists before, after :: Around(s, before, text, after)
  {
    if TrimSpace(s) == text {
      var before := TrimLeftSplits(s);
      var after := TrimRightSplits(TrimLeft(s));
      Assoc(Encoded(before), text, Encoded(after));
      PrefixStaysBare(TrimLeft(s), text);
      assert Around(s, before, text, after);
    }
    if before, after :| Bare(text) && Around(s, before, text, after) {
      TrimSpaceOfPadded(s, before, text, after);
    }
  }

  // ----- the name of the length header -----

  ghost predicate SameLetter(b: byte, c: byte) {
    b == c || (65 <= b <= 90 && c == b + 32) || (65 <= c <= 90 && b == c + 32)
  }

  ghost predicate SameSpelling(s: bytes, t: bytes) {
    |s| == |t| && forall i :: 0 <= i < |s| ==> SameLetter(s[i], t[i])
  }

  lemma ToLowerIff(s: bytes, t: bytes)
    ensures ToLower(s) == ToLower(t) <==> SameSpelling(s, t)
  {
    if |s| == |t| {
      forall i | 0 <= i < |s|
        ensures ToLower(s)[i] == ToLower(t)[i] <==> SameLetter(s[i], t[i])
      {
      }
    }
  }

  /** "Content-Length" in any letter case. */
  ghost predicate SpellsLength(word: bytes) {
    SameSpelling(word, LENGTH_NAME)
  }

  lemma SpellsLengthIff(word: bytes, name: bytes)
    requires name == LENGTH_NAME
    ensures ToLower(word) == LENGTH_KEY <==> SpellsLength(word)
  {
    NameLowersToKey(name);
    ToLowerIff(word, name);
  }

  /** The name of a header entry, with any white space around it. */
  ghost predicate NamesLength(name: bytes) {
    exists before, word, after :: Around(name, before, word, after) && SpellsLength(word)
  }

  lemma SpelledIsBare(word: bytes)
    requires SpellsLength(word)
    ensures Bare(word)
  {
    assert SameLetter(word[0], LENGTH_NAME[0]) && SameLetter(word[13], LENGTH_NAME[13]);
    assert SameLetter(word[12], LENGTH_NAME[12]) && SameLetter(word[11], LENGTH_NAME[11]);
  }

  lemma NamesLengthIff(name: bytes)
    ensures ToLower(TrimSpace(name)) == LENGTH_KEY <==> NamesLength(name)
  {
    SpellsLengthIff(TrimSpace(name), LENGTH_NAME);
    TrimSpaceIff(name, TrimSpace(name));
    if before, word, after :| Around(name, before, word, after) && SpellsLength(word) {
      SpelledIsBare(word);
      TrimSpaceOfPadded(name, before, word, after);
    }
  }

  // ----- the value of the length header -----

  /** Decimal digits for n, with leading zeros or not, and possibly a sign. */
  ghost predicate WritesLength(text: bytes, n: nat) {
    exists digits ::
      && digits != [] && AllDigits(digits) && DigitsValue(digits) == n <= MAX_INT
      && (text == digits || text == [43] + digits || (n == 0 && text == [45] + digits))
  }

  lemma WritesLengthIff(text: bytes, n: nat)
    ensures Atoi(text) == Some(n) <==> WritesLength(text, n)
  {
    if Atoi(text) == Some(n) {
      var digits := if text[0] == 43 || text[0] == 45 then text[1..] else text;
      assert text == digits || text == [text[0]] + digits;
    }
    if digits :| digits != [] && AllDigits(digits) && DigitsValue(digits) == n <= MAX_INT &&
                 (text == digits || text == [43] + digits || (n == 0 && text == [45] + digits)) {
      assert digits[0] in digits;
      if text != digits {
        assert text[1..] == digits;
      }
    }
  }
}
