/** What decode does to the encoding: it maps valid UTF-8 to valid UTF-8, and nothing else to
    valid UTF-8. */
module JsonUtf8 {
  import opened Wrappers
  import opened Strings
  import opened JsonLexers
  import opened Utf
  import opened JsonString

  // The output of an escape never begins with a continuation byte.
  lemma ContinuationsAreCopied(s: string, v: string)
    requires Unescape(s) == Some(v)
    ensures s != "" && (IsCont(s[0]) <==> v != "" && IsCont(v[0]))
    ensures s != "" && s[0] as int > 0x7F ==> v != "" && v[0] == s[0] && Unescape(s[1..]) == Some(v[1..])
  {
    if s[0] == '\\' && !IsSimpleEscape(s[1]) {
      var u := Unit(s);
      if Utf16Check(u).Bmp? {
        Utf8OfIsWellFormed(u, "");
        assert v == Utf8Of(u) + v[|Utf8Of(u)|..];
      } else {
        var cp := PairToCodePoint(u, Unit(s[6..]));
        Utf8OfIsWellFormed(cp, "");
        assert v == Utf8Of(cp) + v[|Utf8Of(cp)|..];
      }
    }
  }

  lemma {:induction false} RunsAgree(s: string, v: string, n: nat)
    requires Unescape(s) == Some(v)
    ensures Conts(s, n) <==> Conts(v, n)
  {
    if n > 0 {
      ContinuationsAreCopied(s, v);
      if IsCont(s[0]) {
        RunsAgree(s[1..], v[1..], n - 1);
        ContsFirst(s, n);
        ContsFirst(v, n);
      }
    }
  }

  lemma {:induction false} RunsAreCopied(s: string, v: string, n: nat)
    requires Unescape(s) == Some(v) && Conts(s, n) && Conts(v, n)
    ensures s[..n] == v[..n] && Unescape(s[n..]) == Some(v[n..])
  {
    if n == 0 {
      assert s[0..] == s && v[0..] == v;
    } else {
      ContinuationsAreCopied(s, v);
      ContsFirst(s, n);
      ContsFirst(v, n);
      RunsAreCopied(s[1..], v[1..], n - 1);
      FirstAndRest(s, n);
      FirstAndRest(v, n);
    }
  }

  lemma ContsFirst(s: string, n: nat)
    requires n > 0 && s != ""
    ensures Conts(s, n) <==> IsCont(s[0]) && Conts(s[1..], n - 1)
  {
    if IsCont(s[0]) && Conts(s[1..], n - 1) {
      forall i | 0 <= i < n ensures IsCont(s[i]) { if i > 0 { assert s[i] == s[1..][i - 1]; } }
    }
  }

  // A non-ASCII byte begins the same character before and after decoding.
  lemma HeadsAreCopied(s: string, v: string)
    requires Unescape(s) == Some(v) && s != "" && s[0] as int > 0x7F
    ensures HeadLen(s) == HeadLen(v)
    ensures HeadLen(s) > 0 ==> Unescape(s[HeadLen(s)..]) == Some(v[HeadLen(s)..])
  {
    ContinuationsAreCopied(s, v);
    var n := Trail(s[0]);
    RunsAgree(s[1..], v[1..], n);
    if Conts(s[1..], n) { RunsAreCopied(s[1..], v[1..], n); }
    if n > 0 && Conts(s[1..], n) {
      assert s[1] == s[1..][..n][0] == v[1..][..n][0] == v[1];
      assert s[1..][n..] == s[n + 1..] && v[1..][n..] == v[n + 1..];
    }
  }

  // A unit that is ASCII in the input and one character in the output.
  lemma UnitKeeps(s: string, n: nat, u: string, w: string, v: string)
    requires n <= |s| && (forall i :: 0 <= i < n ==> s[i] as int <= 0x7F)
    requires v == u + w && HeadLen(u + w) == |u| > 0
    requires Utf8(s[n..]) <==> Utf8(w)
    ensures Utf8(s) <==> Utf8(v)
  {
    SplitAt(s, n);
    Utf8SkipsAscii(s[..n], s[n..]);
    Utf8Skips(u, w);
  }

  /** A decoded string is well-formed UTF-8 if and only if the literal was. */
  lemma {:induction false} UnescapeKeepsUtf8(s: string, v: string)
    requires Unescape(s) == Some(v)
    ensures Utf8(s) <==> Utf8(v)
    decreases |s|
  {
    if s == "\"" {
      assert HeadLen(s) == 1 && s[1..] == "";
    } else if s[0] as int > 0x7F {
      HeadsAreCopied(s, v);
      if HeadLen(s) > 0 { UnescapeKeepsUtf8(s[HeadLen(s)..], v[HeadLen(s)..]); }
    } else if s[0] != '\\' {
      var w := Unescape(s[1..]).value;
      UnescapeKeepsUtf8(s[1..], w);
      UnitKeeps(s, 1, [s[0]], w, v);
    } else if IsSimpleEscape(s[1]) {
      var w := Unescape(s[2..]).value;
      UnescapeKeepsUtf8(s[2..], w);
      UnitKeeps(s, 2, [SimpleValue(s[1])], w, v);
    } else {
      UnescapeKeepsUtf8AtUnit(s, v);
    }
  }

  lemma {:induction false} UnescapeKeepsUtf8AtUnit(s: string, v: string)
    requires Unescape(s) == Some(v) && HasUnit(s)
    ensures Utf8(s) <==> Utf8(v)
    decreases |s|, 0
  {
    var u := Unit(s);
    if Utf16Check(u).Bmp? {
      var w := Unescape(s[6..]).value;
      UnescapeKeepsUtf8(s[6..], w);
      Utf8OfIsWellFormed(u, w);
      UnitKeeps(s, 6, Utf8Of(u), w, v);
    } else {
      var cp := PairToCodePoint(u, Unit(s[6..]));
      var w := Unescape(s[12..]).value;
      UnescapeKeepsUtf8(s[12..], w);
      Utf8OfIsWellFormed(cp, w);
      assert forall i :: 6 <= i < 12 ==> s[i] == s[6..][i - 6];
      UnitKeeps(s, 12, Utf8Of(cp), w, v);
    }
  }

  lemma DecodeKeepsUtf8(s: string)
    requires Decoded(s).Some?
    ensures Utf8(s) <==> Utf8(Decoded(s).value)
  {
    UnescapeKeepsUtf8(s[1..], Decoded(s).value);
    SplitAt(s, 1);
    Utf8SkipsAscii(s[..1], s[1..]);
  }

  /** encode keeps (in both directions) whether a string is well-formed UTF-8. */
  lemma EncodeKeepsUtf8(s: string)
    ensures Utf8(Encoded(s)) <==> Utf8(s)
  {
    DecodeOfEncode(s);
    DecodeKeepsUtf8(Encoded(s));
  }

  // ---------------------------------------------------------------- decode and the lexer

  lemma {:induction false} UnescapeIsLexed(s: string, p: nat)
    requires p <= |s| && Unescape(s[p..]).Some?
    ensures StringBody(s, p) == Taken(|s|)
    decreases |s| - p
  {
    var t := s[p..];
    assert forall i :: 0 <= i < |t| ==> t[i] == s[p + i];
    if s[p] != '\"' && s[p] != '\\' {
      assert t[1..] == s[p + 1..];
      UnescapeIsLexed(s, p + 1);
    } else if s[p] == '\\' && IsSimpleEscape(s[p + 1]) {
      assert t[2..] == s[p + 2..];
      UnescapeIsLexed(s, p + 2);
    } else if s[p] == '\\' {
      HexUnit(s, p);
      if Utf16Check(Unit(t)).Bmp? {
        assert t[6..] == s[p + 6..];
        UnescapeIsLexed(s, p + 6);
      } else {
        assert t[6..] == s[p + 6..] && t[12..] == s[p + 12..];
        HexUnit(s, p + 6);
        UnescapeIsLexed(s, p + 12);
      }
    }
  }

  lemma HexUnit(s: string, p: nat)
    requires p <= |s| && HasUnit(s[p..])
    ensures p + 6 <= |s| && StringBody(s, p) == StringBody(s, p + 6)
  {
    assert forall i :: 0 <= i < 6 ==> s[p + i] == s[p..][i];
    assert HexRun(s, p + 6, 0) == Some(p + 6);
    assert HexRun(s, p + 5, 1) == Some(p + 6);
    assert HexRun(s, p + 4, 2) == Some(p + 6);
    assert HexRun(s, p + 3, 3) == Some(p + 6);
  }

  /** Whatever decode accepts is exactly one string token for the lexer. */
  lemma DecodableIsOneToken(s: string)
    requires Decoded(s).Some?
    ensures LexString(s) == Taken(|s|)
  {
    UnescapeIsLexed(s, 1);
  }
}
