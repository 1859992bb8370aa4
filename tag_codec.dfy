/** The tagged-sentence format of process_data/utils.py: a list of sentences
    is written as one string in which every sentence sits between an open
    tag `<t>` and a close tag `</t>`, and is read back by a loop that finds
    the tags with str.find.

    The decoder is modelled twice over one definition, `Scan`: with
    `strict == false` it is the loop as written; with `strict == true` it
    also rejects any text after the last close tag, which the message of the
    decoder's final assertion says it expects to be blank, and a missing
    close tag, which no assertion of the source checks. */
module TagCodec {
  import opened Builtins

  const OpenTag := "<t>"
  const CloseTag := "</t>"
  /** The two halves of the template every sentence is written into. */
  const SentenceStart := " <t> "
  const SentenceEnd := " </t> "

  /** Why the decoder rejects its input: one kind per assertion of the
      source, plus the missing close tag that only the strict decoder
      rejects. */
  datatype DecodeError =
    | NoOpenTag          // non-blank text without any open tag
    | TextOutsideTags    // non-blank text before an open tag
    | TextAfterLastTag   // non-blank text after the last tag pair
    | UnterminatedTag    // strict decoder only: an open tag with no close tag

  /** A sentence that survives a round trip: no whitespace at either end,
      and no close tag inside. */
  predicate Encodable(s: string)
  {
    Stripped(s) && !Contains(s, CloseTag)
  }

  /** The tagged string for a list of sentences:
      " <t> " + " </t>  <t> ".join(l) + " </t> ". */
  function Encode(l: seq<string>): (r: string)
    ensures |r| == TotalLength(l) + 11 * (if l == [] then 1 else |l|)
    ensures |r| >= 11 && r[..5] == SentenceStart && r[|r| - 6..] == SentenceEnd
    ensures l == [] ==> r == " <t>  </t> "
  {
    var r := SentenceStart + Join(SentenceEnd + SentenceStart, l) + SentenceEnd;
    assert r[..5] == SentenceStart;
    assert r[|r| - 6..] == SentenceEnd;
    r
  }

  /** Encode(l) without its outer spaces, written sentence by sentence:
      "<t> s1 </t>  <t> s2 </t> ... <t> sn </t>". */
  function Inner(l: seq<string>): (r: string)
    requires l != []
    ensures |r| >= 7 && r[0] == '<' && r[|r| - 1] == '>'
  {
    OpenTag + " " + l[0] + " " + CloseTag + (if |l| == 1 then "" else "  " + Inner(l[1..]))
  }

  /** The result of the decoding loop, prefixed with the sentences already
      collected. */
  function Prepend(l: seq<string>, r: Result<seq<string>, DecodeError>): Result<seq<string>, DecodeError>
  {
    match r
    case Ok(ss) => Ok(l + ss)
    case Fail(err) => Fail(err)
  }

  /** The decoding loop and the check after it, from a remainder `t` of the
      stripped input in which an open tag has just been found. One call is
      one iteration: check the text before the open tag, take the text up
      to the next close tag as a sentence, and go on after that close tag. */
  function Scan(t: string, strict: bool): (r: Result<seq<string>, DecodeError>)
    requires Find(t, OpenTag) >= 0
    ensures r.Ok? ==> r.value != []
    ensures r.Fail? ==> r.error != NoOpenTag
    decreases |t|
  {
    var b := Find(t, OpenTag);
    if |Strip(t[..b])| != 0 then Fail(TextOutsideTags)
    else
      var rest := t[b + 3..];
      var e := Find(rest, CloseTag);
      if strict && e == -1 then Fail(UnterminatedTag)
      else
        var sentence := Strip(PySliceTo(rest, e));
        var after := PySliceFrom(rest, e + 4);
        if Find(after, OpenTag) >= 0 then Prepend([sentence], Scan(after, strict))
        else if |Strip(if strict then after else PySliceFrom(after, e + 4))| == 0 then Ok([sentence])
        else Fail(TextAfterLastTag)
  }

  /** What the decoder returns for `text`, as written. */
  function Decoded(text: string): Result<seq<string>, DecodeError>
  {
    var t := Strip(text);
    if |t| == 0 then Ok([])
    else if Find(t, OpenTag) == -1 then Fail(NoOpenTag)
    else Scan(t, false)
  }

  /** The decoder with a missing close tag and trailing text rejected. */
  function DecodedStrict(text: string): Result<seq<string>, DecodeError>
  {
    var t := Strip(text);
    if |t| == 0 then Ok([])
    else if Find(t, OpenTag) == -1 then Fail(NoOpenTag)
    else Scan(t, true)
  }

  /** The decoder as written: strip the text, then repeatedly find an open
      tag, check that only whitespace precedes it, and collect the stripped
      text up to the next close tag; finally check what follows. */
  method Decode(text: string) returns (r: Result<seq<string>, DecodeError>)
    ensures r == Decoded(text)
  {
    var t := Strip(text);
    if |t| == 0 {
      return Ok([]);
    }
    var b := Find(t, OpenTag);
    if b == -1 {
      return Fail(NoOpenTag);
    }
    var l: seq<string> := [];
    var e := -1;
    PrependTwice([], [], Scan(t, false));
    while b != -1
      invariant b == Find(t, OpenTag)
      invariant b != -1 ==> Decoded(text) == Prepend(l, Scan(t, false))
      invariant b == -1 ==>
        Decoded(text) == if |Strip(PySliceFrom(t, e + 4))| == 0 then Ok(l) else Fail(TextAfterLastTag)
      decreases |t|
    {
      if |Strip(t[..b])| != 0 {
        return Fail(TextOutsideTags);
      }
      ghost var before, start := t, b;
      t := t[b + 3..];
      ghost var rest := t;
      e := Find(t, CloseTag);
      var sentence := Strip(PySliceTo(t, e));
      t := PySliceFrom(t, e + 4);
      b := Find(t, OpenTag);
      ScanIs(before, false, start, rest, e, sentence, t);
      assert Scan(before, false) ==
        if b != -1 then Prepend([sentence], Scan(t, false))
        else if |Strip(PySliceFrom(t, e + 4))| == 0 then Ok([sentence])
        else Fail(TextAfterLastTag);
      if b != -1 {
        PrependTwice(l, [sentence], Scan(t, false));
      }
      l := l + [sentence];
    }
    if |Strip(PySliceFrom(t, e + 4))| != 0 {
      return Fail(TextAfterLastTag);
    }
    return Ok(l);
  }

  lemma PrependTwice(l: seq<string>, m: seq<string>, r: Result<seq<string>, DecodeError>)
    ensures Prepend(l, Prepend(m, r)) == Prepend(l + m, r)
    ensures Prepend([], r) == r
  {
    if r.Ok? {
      assert l + (m + r.value) == (l + m) + r.value;
      assert [] + r.value == r.value;
    }
  }

  // ---------------------------------------------------------------------
  // Facts about finding the tags

  /** A string that lacks one of the characters of a tag does not contain it. */
  lemma NoTagWithout(s: string, tag: string, c: char)
    requires c in tag && c !in s
    ensures !Contains(s, tag)
  {
    forall i | 0 <= i <= |s| - |tag| ensures !OccursAt(s, tag, i) {
      var k :| 0 <= k < |tag| && tag[k] == c;
      assert s[i..i + |tag|][k] == s[i + k] != c;
    }
  }

  /** Whitespace contains no tag. */
  lemma BlankNoTag(p: string, tag: string)
    requires tag == OpenTag || tag == CloseTag
    requires IsBlank(p)
    ensures !Contains(p, tag)
  {
    assert !IsSpace('<');
    NoTagWithout(p, tag, '<');
  }

  /** Both tags begin with '<' and have no other '<': so a tag written right
      after a string free of that tag is the tag's first occurrence. */
  lemma FindTagAfter(p: string, tag: string, y: string)
    requires tag == OpenTag || tag == CloseTag
    requires !Contains(p, tag)
    ensures Find(p + tag + y, tag) == |p|
  {
    var s := p + tag + y;
    assert s[|p|..|p| + |tag|] == tag;
    forall j | 0 <= j < |p| ensures !OccursAt(s, tag, j) {
      if j + |tag| <= |p| {
        assert s[j..j + |tag|] == p[j..j + |tag|];
        assert !OccursAt(p, tag, j);
      } else {
        var d := |p| - j;
        assert s[j..j + |tag|][d] == s[|p|] == '<';
        assert tag[d] != '<';
      }
    }
    FindIs(s, tag, |p|);
  }

  /** A sentence without a close tag, padded by one space on each side, has
      none either. */
  lemma PaddedNoClose(s: string)
    requires !Contains(s, CloseTag)
    ensures !Contains(" " + s + " ", CloseTag)
  {
    var m := " " + s + " ";
    forall i | 0 <= i <= |m| - 4 ensures !OccursAt(m, CloseTag, i) {
      if i == 0 {
        assert m[0..4][0] == ' ' != CloseTag[0];
      } else if i + 4 <= |s| + 1 {
        assert m[i..i + 4] == s[i - 1..i + 3];
        assert !OccursAt(s, CloseTag, i - 1);
      } else {
        assert m[i..i + 4][3] == m[|s| + 1] == ' ' != CloseTag[3];
      }
    }
  }

  /** An occurrence in a part of a string is an occurrence in the string. */
  lemma OccursInPart(s: string, i: nat, n: nat, sub: string)
    requires i + n <= |s|
    requires Contains(s[i..i + n], sub)
    ensures Contains(s, sub)
  {
    var k :| 0 <= k <= n - |sub| && OccursAt(s[i..i + n], sub, k);
    assert s[i + k..i + k + |sub|] == sub by {
      forall d | 0 <= d < |sub| ensures s[i + k..i + k + |sub|][d] == sub[d] {
        assert sub[d] == s[i..i + n][k..k + |sub|][d] == s[i + k + d];
      }
    }
    assert OccursAt(s, sub, i + k);
  }

  /** strip() neither creates nor removes a tag, since tags hold no
      whitespace. */
  lemma ContainsTagStrip(t: string, tag: string)
    requires tag == OpenTag || tag == CloseTag
    ensures Contains(Strip(t), tag) <==> Contains(t, tag)
  {
    var x := Strip(t);
    var i := StripAt(t);
    if Contains(x, tag) {
      OccursInPart(t, i, |x|, tag);
    }
    if Contains(t, tag) {
      var k :| 0 <= k <= |t| - |tag| && OccursAt(t, tag, k);
      TagInsideBlankEnds(t, i, |x|, tag, k);
    }
  }

  /** A tag in a string whose two ends are whitespace lies in its middle. */
  lemma TagInsideBlankEnds(t: string, i: nat, n: nat, tag: string, k: int)
    requires tag == OpenTag || tag == CloseTag
    requires i + n <= |t| && IsBlank(t[..i]) && IsBlank(t[i + n..])
    requires OccursAt(t, tag, k)
    ensures OccursAt(t[i..i + n], tag, k - i)
  {
    assert i <= k by {
      assert t[k] == t[k..k + |tag|][0] == '<';
    }
    assert k + |tag| <= i + n by {
      var j := k + |tag| - 1;
      assert t[j] == t[k..k + |tag|][|tag| - 1] == '>';
    }
    assert t[i..i + n][k - i..k - i + |tag|] == tag by {
      forall d | 0 <= d < |tag| ensures t[i..i + n][k - i..k - i + |tag|][d] == tag[d] {
        assert t[i..i + n][k - i..k - i + |tag|][d] == t[k + d] == t[k..k + |tag|][d];
      }
    }
  }


  /** The piece the decoder takes as a sentence holds no close tag. */
  lemma PieceNoClose(rest: string)
    ensures !Contains(PySliceTo(rest, Find(rest, CloseTag)), CloseTag)
  {
    var e := Find(rest, CloseTag);
    var piece := PySliceTo(rest, e);
    if e >= 0 {
      assert piece == rest[..e];
      forall j | 0 <= j <= |piece| - 4 ensures !OccursAt(piece, CloseTag, j) {
        assert piece[j..j + 4] == rest[j..j + 4];
        assert !OccursAt(rest, CloseTag, j);
      }
    } else if rest != [] {
      assert piece == rest[0..|rest| - 1];
      if Contains(piece, CloseTag) {
        OccursInPart(rest, 0, |rest| - 1, CloseTag);
      }
    }
  }

  /** One turn of the loop that finds a close tag: whitespace, an open tag,
      a sentence m without a close tag, the close tag, and the rest z. */
  lemma ScanPair(q: string, m: string, z: string, strict: bool)
    requires IsBlank(q) && !Contains(m, CloseTag)
    ensures Find(q + OpenTag + m + CloseTag + z, OpenTag) == |q|
    ensures Scan(q + OpenTag + m + CloseTag + z, strict) ==
      if Find(z, OpenTag) >= 0 then Prepend([Strip(m)], Scan(z, strict))
      else if |Strip(if strict then z else PySliceFrom(z, |m| + 4))| == 0 then Ok([Strip(m)])
      else Fail(TextAfterLastTag)
  {
    var t := q + OpenTag + m + CloseTag + z;
    var rest := m + CloseTag + z;
    assert Find(t, OpenTag) == |q| by {
      BlankNoTag(q, OpenTag);
      assert t == q + OpenTag + rest;
      FindTagAfter(q, OpenTag, rest);
    }
    assert t[..|q|] == q && t[|q| + 3..] == rest;
    assert Find(rest, CloseTag) == |m| by {
      FindTagAfter(m, CloseTag, z);
    }
    assert PySliceTo(rest, |m|) == m by {
      SliceToIs(rest, |m|);
    }
    assert PySliceFrom(rest, |m| + 4) == z by {
      SliceFromIs(rest, |m| + 4);
    }
    ScanIs(t, strict, |q|, rest, |m|, Strip(m), z);
  }

  /** One turn of the loop, with its intermediate values named. */
  lemma ScanIs(t: string, strict: bool, b: int, rest: string, e: int, sentence: string, after: string)
    requires Find(t, OpenTag) == b >= 0 && rest == t[b + 3..] && e == Find(rest, CloseTag)
    requires sentence == Strip(PySliceTo(rest, e)) && after == PySliceFrom(rest, e + 4)
    ensures Scan(t, strict) ==
      if |Strip(t[..b])| != 0 then Fail(TextOutsideTags)
      else if strict && e == -1 then Fail(UnterminatedTag)
      else if Find(after, OpenTag) >= 0 then Prepend([sentence], Scan(after, strict))
      else if |Strip(if strict then after else PySliceFrom(after, e + 4))| == 0 then Ok([sentence])
      else Fail(TextAfterLastTag)
  {
    if |Strip(t[..b])| == 0 && !(strict && e == -1) {
      if Find(after, OpenTag) >= 0 {
        assert Scan(t, strict) == Prepend([sentence], Scan(after, strict));
      } else {
        assert Scan(t, strict) ==
          if |Strip(if strict then after else PySliceFrom(after, e + 4))| == 0 then Ok([sentence])
          else Fail(TextAfterLastTag);
      }
    }
  }

  // ---------------------------------------------------------------------
  // Round trip

  /** The encoded string is Inner(l) with one space on each side. */
  lemma {:induction false} EncodeIsPaddedInner(l: seq<string>)
    requires l != []
    ensures Encode(l) == " " + Inner(l) + " "
  {
    InnerIsJoin(l);
  }

  lemma {:induction false} InnerIsJoin(l: seq<string>)
    requires l != []
    ensures Inner(l) == "<t> " + Join(SentenceEnd + SentenceStart, l) + " </t>"
  {
    if |l| > 1 {
      InnerIsJoin(l[1..]);
    }
  }

  /** Decoding a blank prefix followed by the tagged sentences of l gives l. */
  lemma {:induction false} ScanInner(p: string, l: seq<string>, strict: bool)
    requires IsBlank(p) && l != []
    requires forall s <- l :: Encodable(s)
    ensures Find(p + Inner(l), OpenTag) == |p|
    ensures Scan(p + Inner(l), strict) == Ok(l)
    decreases |l|
  {
    var s0 := l[0];
    ConsTail(l);
    assert Encodable(s0);
    var m := " " + s0 + " ";
    var tail := InnerTail(l);
    InnerSplit(p, l);
    PaddedNoClose(s0);
    ScanPair(p, m, tail, strict);
    StripSpaced(m, s0);
    if |l| == 1 {
      assert !Contains(tail, OpenTag);
      assert [s0] == l;
    } else {
      SpacesBlank();
      ScanInner("  ", l[1..], strict);
    }
  }

  /** Decoding a blank prefix, the tagged sentences of l and a text z that
      holds an open tag gives l in front of what z decodes to. */
  lemma {:induction false} ScanInnerThen(p: string, l: seq<string>, z: string, strict: bool)
    requires IsBlank(p) && l != []
    requires forall s <- l :: Encodable(s)
    requires Find(z, OpenTag) >= 0
    ensures Find(p + Inner(l) + z, OpenTag) == |p|
    ensures Scan(p + Inner(l) + z, strict) == Prepend(l, Scan(z, strict))
    decreases |l|
  {
    var s0 := l[0];
    ConsTail(l);
    assert Encodable(s0);
    var m := " " + s0 + " ";
    var tail := InnerTail(l);
    InnerSplitThen(p, l, z);
    PaddedNoClose(s0);
    StripSpaced(m, s0);
    if |l| == 1 {
      assert tail + z == z;
      ScanPair(p, m, z, strict);
      PrependTwice([s0], [], Scan(z, strict));
      assert [s0] + [] == l;
    } else {
      SpacesBlank();
      ScanInnerThen("  ", l[1..], z, strict);
      ScanPair(p, m, tail + z, strict);
      PrependTwice([s0], l[1..], Scan(z, strict));
    }
  }

  lemma SpacesBlank()
    ensures IsBlank(" ") && IsBlank("  ")
  {
  }

  lemma ConsTail(l: seq<string>)
    requires l != []
    ensures [l[0]] + l[1..] == l
  {
  }

  /** What follows the first sentence's close tag in Inner(l). */
  function InnerTail(l: seq<string>): string
    requires l != []
  {
    if |l| == 1 then "" else "  " + Inner(l[1..])
  }

  lemma InnerSplit(p: string, l: seq<string>)
    requires l != []
    ensures p + Inner(l) == p + OpenTag + (" " + l[0] + " ") + CloseTag + InnerTail(l)
  {
    var m := " " + l[0] + " ";
    assert Inner(l) == OpenTag + " " + l[0] + " " + CloseTag + InnerTail(l);
    assert OpenTag + " " + l[0] + " " == OpenTag + m;
    Regroup4(p, OpenTag + m, CloseTag, InnerTail(l));
  }

  lemma InnerSplitThen(p: string, l: seq<string>, z: string)
    requires l != []
    ensures p + Inner(l) + z == p + OpenTag + (" " + l[0] + " ") + CloseTag + (InnerTail(l) + z)
  {
    var a := p + OpenTag + (" " + l[0] + " ") + CloseTag;
    assert p + Inner(l) == a + InnerTail(l) by {
      InnerSplit(p, l);
    }
    Assoc(a, InnerTail(l), z);
  }

  lemma Assoc(a: string, b: string, c: string)
    ensures (a + b) + c == a + (b + c)
  {
  }

  lemma Regroup3(a: string, b: string, c: string)
    ensures a + b + OpenTag + c == [] + a + (b + OpenTag + c)
  {
  }

  lemma Regroup4(a: string, b: string, c: string, d: string)
    ensures a + (b + c + d) == a + b + c + d
  {
  }



  /** Decoding an encoded list of sentences gives the list back, provided no
      sentence has whitespace at either end or a close tag inside (an open
      tag inside a sentence does no harm). */
  lemma RoundTrip(l: seq<string>)
    requires l != []
    requires forall s <- l :: Encodable(s)
    ensures Decoded(Encode(l)) == Ok(l)
    ensures DecodedStrict(Encode(l)) == Ok(l)
  {
    EncodeIsPaddedInner(l);
    assert Inner(l)[0] == '<';
    assert Inner(l)[|Inner(l)| - 1] == '>';
    assert !IsSpace('<') && !IsSpace('>');
    StripOf(" ", Inner(l), " ");
    ScanInner("", l, false);
    ScanInner("", l, true);
    assert "" + Inner(l) == Inner(l);
  }

  /** The empty list does not come back: it decodes to one empty sentence. */
  lemma RoundTripEmpty()
    ensures Decoded(Encode([])) == Ok([""])
  {
    RoundTrip([""]);
    assert Encode([]) == Encode([""]);
  }

  // ---------------------------------------------------------------------
  // What the decoder accepts and returns

  /** The decoder returns no sentence exactly when the text is blank. */
  lemma DecodedEmpty(text: string)
    ensures Decoded(text) == Ok([]) <==> IsBlank(text)
  {
  }

  /** The decoder reports a missing open tag exactly when the text is not
      blank and holds no open tag. */
  lemma DecodedNoOpenTag(text: string)
    ensures Decoded(text) == Fail(NoOpenTag) <==> !IsBlank(text) && !Contains(text, OpenTag)
  {
    ContainsTagStrip(text, OpenTag);
  }

  /** strip() leaves a stripped string as it is. */
  lemma StripStripped(t: string)
    requires Stripped(t)
    ensures Strip(t) == t
  {
    assert "" + t + "" == t;
    StripOf("", t, "");
  }

  /** strip() of a word between two spaces. */
  lemma StripSpaced(s: string, w: string)
    requires s == " " + w + " " && Stripped(w)
    ensures Strip(s) == w
  {
    StripOf(" ", w, " ");
  }

  /** Whitespace added around a text does not change what it decodes to. */
  lemma DecodedIgnoresOuterWhitespace(p: string, text: string, q: string)
    requires IsBlank(p) && IsBlank(q)
    ensures Decoded(p + text + q) == Decoded(text)
  {
    StripPadded(p, text, q);
  }

  /** strip() does not see whitespace added around a text. */
  lemma StripPadded(p: string, text: string, q: string)
    requires IsBlank(p) && IsBlank(q)
    ensures Strip(p + text + q) == Strip(text)
  {
    var i := StripAt(text);
    var x := Strip(text);
    var a, c := text[..i], text[i + |x|..];
    assert text == a + x + c;
    Regroup(p, text, q, a, x, c);
    BlankConcat(p, a);
    BlankConcat(c, q);
    StripOf(p + a, x, c + q);
  }

  lemma Regroup(p: string, text: string, q: string, a: string, x: string, c: string)
    requires text == a + x + c
    ensures p + text + q == (p + a) + x + (c + q)
  {
  }

  lemma BlankConcat(a: string, b: string)
    requires IsBlank(a) && IsBlank(b)
    ensures IsBlank(a + b)
  {
    assert forall k :: 0 <= k < |a + b| ==> (a + b)[k] == if k < |a| then a[k] else b[k - |a|];
  }

  /** Tagged sentences with any whitespace next to the tags: sentence k is
      written q[k] + "<t>" + a[k] + l[k] + z[k] + "</t>". */
  function Spaced(l: seq<string>, q: seq<string>, a: seq<string>, z: seq<string>): (r: string)
    requires l != [] && |q| == |a| == |z| == |l|
    ensures |r| >= |q[0]| + 7 && r[|q[0]|] == '<' && r[|r| - 1] == '>'
    decreases |l|
  {
    q[0] + OpenTag + (a[0] + l[0] + z[0]) + CloseTag
      + (if |l| == 1 then "" else Spaced(l[1..], q[1..], a[1..], z[1..]))
  }

  /** The padding of Spaced is whitespace and the sentences survive a round
      trip. */
  predicate BlankPadding(l: seq<string>, q: seq<string>, a: seq<string>, z: seq<string>)
  {
    |q| == |a| == |z| == |l| &&
    forall k :: 0 <= k < |l| ==> Encodable(l[k]) && IsBlank(q[k]) && IsBlank(a[k]) && IsBlank(z[k])
  }

  /** A sentence without a close tag, between whitespace, has none either. */
  lemma BlankPaddedNoClose(a: string, s: string, z: string)
    requires IsBlank(a) && IsBlank(z) && !Contains(s, CloseTag)
    ensures !Contains(a + s + z, CloseTag)
  {
    var m := a + s + z;
    forall i | 0 <= i <= |m| - 4 ensures !OccursAt(m, CloseTag, i) {
      if i < |a| {
        assert m[i..i + 4][0] == m[i] == a[i];
      } else if i + 4 <= |a| + |s| {
        assert m[i..i + 4] == s[i - |a|..i - |a| + 4];
        assert !OccursAt(s, CloseTag, i - |a|);
      } else {
        assert m[i..i + 4][3] == m[i + 3] == z[i + 3 - |a| - |s|];
      }
    }
  }

  /** The loop reads sentences back whatever whitespace sits next to their
      tags, both as written and in the corrected form. */
  lemma {:induction false} ScanSpaced(l: seq<string>, q: seq<string>, a: seq<string>, z: seq<string>, strict: bool)
    requires l != [] && BlankPadding(l, q, a, z)
    ensures Find(Spaced(l, q, a, z), OpenTag) == |q[0]|
    ensures Scan(Spaced(l, q, a, z), strict) == Ok(l)
    decreases |l|
  {
    SpacedHead(l, q, a, z);
    if |l| == 1 {
      SpacedLast(l, q, a, z, strict);
    } else {
      PaddingTail(l, q, a, z);
      ScanSpaced(l[1..], q[1..], a[1..], z[1..], strict);
      SpacedNext(l, q, a, z, strict);
    }
  }

  /** The first sentence of Spaced, with its padding, is read back. */
  lemma SpacedHead(l: seq<string>, q: seq<string>, a: seq<string>, z: seq<string>)
    requires l != [] && BlankPadding(l, q, a, z)
    ensures IsBlank(q[0]) && !Contains(a[0] + l[0] + z[0], CloseTag) && Strip(a[0] + l[0] + z[0]) == l[0]
  {
    assert Encodable(l[0]) && IsBlank(q[0]) && IsBlank(a[0]) && IsBlank(z[0]);
    BlankPaddedNoClose(a[0], l[0], z[0]);
    StripOf(a[0], l[0], z[0]);
  }

  lemma SpacedLast(l: seq<string>, q: seq<string>, a: seq<string>, z: seq<string>, strict: bool)
    requires |l| == 1 && |q| == |a| == |z| == |l|
    requires IsBlank(q[0]) && !Contains(a[0] + l[0] + z[0], CloseTag) && Strip(a[0] + l[0] + z[0]) == l[0]
    ensures Find(Spaced(l, q, a, z), OpenTag) == |q[0]|
    ensures Scan(Spaced(l, q, a, z), strict) == Ok(l)
  {
    var m := a[0] + l[0] + z[0];
    assert Spaced(l, q, a, z) == q[0] + OpenTag + m + CloseTag + "";
    ScanLastPair(Spaced(l, q, a, z), q[0], m, l[0], strict);
    assert [l[0]] == l;
  }

  lemma SpacedNext(l: seq<string>, q: seq<string>, a: seq<string>, z: seq<string>, strict: bool)
    requires |l| > 1 && |q| == |a| == |z| == |l|
    requires IsBlank(q[0]) && !Contains(a[0] + l[0] + z[0], CloseTag) && Strip(a[0] + l[0] + z[0]) == l[0]
    requires Find(Spaced(l[1..], q[1..], a[1..], z[1..]), OpenTag) >= 0
    requires Scan(Spaced(l[1..], q[1..], a[1..], z[1..]), strict) == Ok(l[1..])
    ensures Find(Spaced(l, q, a, z), OpenTag) == |q[0]|
    ensures Scan(Spaced(l, q, a, z), strict) == Ok(l)
  {
    var m := a[0] + l[0] + z[0];
    var tail := Spaced(l[1..], q[1..], a[1..], z[1..]);
    SpacedUnfold(l, q, a, z, m, tail);
    ScanNextPair(Spaced(l, q, a, z), q[0], m, l[0], tail, l[1..], strict);
    ConsTail(l);
  }

  lemma SpacedUnfold(l: seq<string>, q: seq<string>, a: seq<string>, z: seq<string>, m: string, tail: string)
    requires l != [] && |q| == |a| == |z| == |l|
    requires m == a[0] + l[0] + z[0]
    requires tail == if |l| == 1 then "" else Spaced(l[1..], q[1..], a[1..], z[1..])
    ensures Spaced(l, q, a, z) == q[0] + OpenTag + m + CloseTag + tail
  {
  }

  /** The pass over the last pair of tags, with nothing after it. */
  lemma ScanLastPair(t: string, q: string, m: string, s: string, strict: bool)
    requires t == q + OpenTag + m + CloseTag + ""
    requires IsBlank(q) && !Contains(m, CloseTag) && Strip(m) == s
    ensures Find(t, OpenTag) == |q|
    ensures Scan(t, strict) == Ok([s])
  {
    assert !Contains("", OpenTag);
    assert PySliceFrom("", |m| + 4) == [];
    ScanPair(q, m, "", strict);
  }

  /** A pass over a pair of tags followed by text the loop reads as `l`. */
  lemma ScanNextPair(t: string, q: string, m: string, s: string, tail: string, l: seq<string>, strict: bool)
    requires t == q + OpenTag + m + CloseTag + tail
    requires IsBlank(q) && !Contains(m, CloseTag) && Strip(m) == s
    requires Find(tail, OpenTag) >= 0 && Scan(tail, strict) == Ok(l)
    ensures Find(t, OpenTag) == |q|
    ensures Scan(t, strict) == Ok([s] + l)
  {
    ScanPair(q, m, tail, strict);
  }

  lemma PaddingTail(l: seq<string>, q: seq<string>, a: seq<string>, z: seq<string>)
    requires |l| > 1 && BlankPadding(l, q, a, z)
    ensures BlankPadding(l[1..], q[1..], a[1..], z[1..])
  {
    forall k | 0 <= k < |l| - 1
      ensures Encodable(l[1..][k]) && IsBlank(q[1..][k]) && IsBlank(a[1..][k]) && IsBlank(z[1..][k])
    {
      assert l[1..][k] == l[k + 1] && q[1..][k] == q[k + 1];
      assert a[1..][k] == a[k + 1] && z[1..][k] == z[k + 1];
    }
  }

  /** Decoding tagged sentences gives them back whatever whitespace sits next
      to the tags, before the first one and after the last one. */
  lemma DecodedSpaced(text: string, l: seq<string>, q: seq<string>, a: seq<string>, z: seq<string>, w: string)
    requires l != [] && BlankPadding(l, q, a, z) && IsBlank(w)
    requires text == Spaced(l, q, a, z) + w
    ensures Decoded(text) == Ok(l)
    ensures DecodedStrict(text) == Ok(l)
  {
    var q' := [""] + q[1..];
    PaddingLead(l, q, a, z, q');
    var core := Spaced(l, q', a, z);
    SpacedLead(l, q, a, z, q');
    assert Stripped(core) by {
      assert core[0] == '<' && core[|core| - 1] == '>';
      assert !IsSpace('<') && !IsSpace('>');
    }
    StripOf(q[0], core, w);
    ScanSpaced(l, q', a, z, false);
    ScanSpaced(l, q', a, z, true);
  }

  /** The whitespace before the first open tag can be taken out of Spaced. */
  lemma PaddingLead(l: seq<string>, q: seq<string>, a: seq<string>, z: seq<string>, q': seq<string>)
    requires l != [] && BlankPadding(l, q, a, z) && q' == [""] + q[1..]
    ensures IsBlank(q[0]) && BlankPadding(l, q', a, z)
  {
    forall k | 0 <= k < |l| ensures IsBlank(q'[k]) {
      if k > 0 {
        assert q'[k] == q[k];
      }
    }
  }

  lemma SpacedLead(l: seq<string>, q: seq<string>, a: seq<string>, z: seq<string>, q': seq<string>)
    requires l != [] && |q| == |a| == |z| == |l| && q' == [""] + q[1..]
    ensures Spaced(l, q, a, z) == q[0] + Spaced(l, q', a, z)
  {
    var m := a[0] + l[0] + z[0];
    var tail := if |l| == 1 then "" else Spaced(l[1..], q[1..], a[1..], z[1..]);
    SpacedUnfold(l, q, a, z, m, tail);
    assert q'[0] == "" && q'[1..] == q[1..];
    SpacedUnfold(l, q', a, z, m, tail);
    Prefix5(q[0], OpenTag, m, CloseTag, tail);
  }

  lemma Prefix5(p: string, b: string, c: string, d: string, e: string)
    ensures p + b + c + d + e == p + ("" + b + c + d + e)
  {
    assert "" + b == b;
  }


  /** Every sentence the loop collects is stripped and holds no close tag. */
  lemma {:induction false} ScanSentencesEncodable(t: string, strict: bool)
    requires Find(t, OpenTag) >= 0
    ensures Scan(t, strict).Ok? ==> forall s <- Scan(t, strict).value :: Encodable(s)
    decreases |t|
  {
    var b := Find(t, OpenTag);
    var rest := t[b + 3..];
    var e := Find(rest, CloseTag);
    var piece := PySliceTo(rest, e);
    var after := PySliceFrom(rest, e + 4);
    ScanIs(t, strict, b, rest, e, Strip(piece), after);
    assert Encodable(Strip(piece)) by {
      PieceNoClose(rest);
      ContainsTagStrip(piece, CloseTag);
    }
    if |Strip(t[..b])| == 0 && Find(after, OpenTag) >= 0 {
      ScanSentencesEncodable(after, strict);
    }
  }

  /** Every sentence the decoder returns is stripped and free of close tags,
      so a successful decode re-encodes and decodes to the same list. */
  lemma DecodeEncodeDecode(text: string)
    requires Decoded(text).Ok? && Decoded(text).value != []
    ensures forall s <- Decoded(text).value :: Encodable(s)
    ensures Decoded(Encode(Decoded(text).value)) == Decoded(text)
  {
    ScanSentencesEncodable(Strip(text), false);
    RoundTrip(Decoded(text).value);
  }

  /** Non-blank text in front of the first open tag is rejected. */
  lemma TextBeforeFirstTag(text: string, p: string, y: string)
    requires Strip(text) == p + OpenTag + y
    requires !Contains(p, OpenTag) && !IsBlank(p)
    ensures Decoded(text) == Fail(TextOutsideTags)
  {
    FindTagAfter(p, OpenTag, y);
    assert Strip(text)[..|p|] == p;
  }

  /** A pass of the loop that meets non-blank text before its open tag
      fails. */
  lemma ScanTextFirst(p: string, y: string, strict: bool)
    requires !Contains(p, OpenTag) && !IsBlank(p)
    ensures Find(p + OpenTag + y, OpenTag) == |p|
    ensures Scan(p + OpenTag + y, strict) == Fail(TextOutsideTags)
  {
    FindTagAfter(p, OpenTag, y);
    assert (p + OpenTag + y)[..|p|] == p;
  }

  /** Non-blank text between the first close tag and the next open tag is
      rejected. */
  lemma TextBetweenTags(text: string, m: string, p: string, y: string)
    requires Strip(text) == OpenTag + m + CloseTag + p + OpenTag + y
    requires !Contains(m, CloseTag) && !Contains(p, OpenTag) && !IsBlank(p)
    ensures Decoded(text) == Fail(TextOutsideTags)
  {
    var z := p + OpenTag + y;
    assert Strip(text) == "" + OpenTag + m + CloseTag + z;
    ScanTextFirst(p, y, false);
    ScanPair("", m, z, false);
  }

  /** Non-blank text after any number of tagged sentences and before the
      next open tag is rejected: the passes over the sentences succeed and
      the next one fails. */
  lemma TextAfterSentences(text: string, l: seq<string>, p: string, y: string)
    requires l != [] && forall s <- l :: Encodable(s)
    requires Strip(text) == Inner(l) + p + OpenTag + y
    requires !Contains(p, OpenTag) && !IsBlank(p)
    ensures Decoded(text) == Fail(TextOutsideTags)
  {
    var z := p + OpenTag + y;
    Regroup3(Inner(l), p, y);
    ScanTextFirst(p, y, false);
    ScanInnerThen([], l, z, false);
  }

  /** An open tag without a close tag is not an error: the sentence is the
      text after the tag minus its last character, and decoding goes on
      three characters after the tag. If no open tag follows there, text
      after the tag is accepted as long as it is at most six characters
      long. */
  lemma MissingCloseTag(text: string, r: string)
    requires Strip(text) == OpenTag + r
    requires !Contains(r, CloseTag)
    ensures Decoded(text) ==
      if Find(PySliceFrom(r, 3), OpenTag) >= 0 then
        Prepend([Strip(PySliceTo(r, -1))], Scan(PySliceFrom(r, 3), false))
      else if |r| <= 6 then Ok([Strip(PySliceTo(r, -1))])
      else Fail(TextAfterLastTag)
    ensures !Contains(r, OpenTag) ==>
      Decoded(text) == if |r| <= 6 then Ok([Strip(PySliceTo(r, -1))]) else Fail(TextAfterLastTag)
  {
    ScanMissingClose(Strip(text), r);
    if |r| > 6 {
      SuffixNotBlank(OpenTag, r, 6);
    }
    if !Contains(r, OpenTag) {
      NoTagInSuffix(r, 3);
    }
  }

  /** One pass of the loop over an open tag that no close tag follows. */
  lemma ScanMissingClose(t: string, r: string)
    requires t == OpenTag + r && !Contains(r, CloseTag)
    ensures Find(t, OpenTag) == 0
    ensures Scan(t, false) ==
      if Find(PySliceFrom(r, 3), OpenTag) >= 0 then
        Prepend([Strip(PySliceTo(r, -1))], Scan(PySliceFrom(r, 3), false))
      else if |Strip(PySliceFrom(r, 6))| == 0 then Ok([Strip(PySliceTo(r, -1))])
      else Fail(TextAfterLastTag)
  {
    assert Find(t, OpenTag) == 0 by {
      assert !Contains([], OpenTag);
      assert [] + OpenTag + r == t;
      FindTagAfter([], OpenTag, r);
    }
    assert t[3..] == r && t[..0] == [];
    SliceFromTwice(r, 3, 3);
    ScanIs(t, false, 0, r, -1, Strip(PySliceTo(r, -1)), PySliceFrom(r, 3));
  }

  /** A suffix of a string without a tag has none either. */
  lemma NoTagInSuffix(r: string, k: nat)
    requires !Contains(r, OpenTag)
    ensures !Contains(PySliceFrom(r, k), OpenTag)
  {
    var after := PySliceFrom(r, k);
    if Contains(after, OpenTag) {
      assert r[|r| - |after|..|r| - |after| + |after|] == after;
      OccursInPart(r, |r| - |after|, |after|, OpenTag);
    }
  }

  /** After the last close tag, the decoder only looks at the text beyond
      offset e + 4 of what follows that tag, where e is the tag's offset
      after the open tag: trailing text no longer than the sentence plus
      four characters is accepted. */
  lemma TrailingAfterClose(text: string, m: string, x: string)
    requires Strip(text) == OpenTag + m + CloseTag + x
    requires !Contains(m, CloseTag) && !Contains(x, OpenTag)
    ensures Decoded(text) == if |x| <= |m| + 4 then Ok([Strip(m)]) else Fail(TextAfterLastTag)
  {
    var t := Strip(text);
    assert t == "" + OpenTag + m + CloseTag + x;
    if |x| > |m| + 4 {
      SuffixNotBlank("" + OpenTag + m + CloseTag, x, |m| + 4);
    }
    ScanPair("", m, x, false);
  }


  // ---------------------------------------------------------------------
  // The strict decoder

  /** A non-empty suffix of the end of a stripped string is not blank. */
  lemma SuffixNotBlank(a: string, x: string, k: int)
    requires Stripped(a + x) && 0 <= k < |x|
    ensures |Strip(PySliceFrom(x, k))| != 0
  {
    var y := PySliceFrom(x, k);
    assert y == x[k..];
    assert y[|y| - 1] == x[|x| - 1] == (a + x)[|a + x| - 1];
  }

  /** The strict decoder rejects a missing close tag. */
  lemma StrictMissingCloseTag(text: string, r: string)
    requires Strip(text) == OpenTag + r
    requires !Contains(r, CloseTag)
    ensures DecodedStrict(text) == Fail(UnterminatedTag)
  {
    var t := Strip(text);
    assert t == "" + OpenTag + r;
    assert !Contains("", OpenTag);
    FindTagAfter("", OpenTag, r);
    assert t[3..] == r;
  }

  /** The strict decoder rejects any text after the last close tag. */
  lemma StrictTrailingAfterClose(text: string, m: string, x: string)
    requires Strip(text) == OpenTag + m + CloseTag + x
    requires !Contains(m, CloseTag) && !Contains(x, OpenTag)
    ensures DecodedStrict(text) == if x == [] then Ok([Strip(m)]) else Fail(TextAfterLastTag)
  {
    var t := Strip(text);
    assert t == "" + OpenTag + m + CloseTag + x;
    if x != [] {
      SuffixNotBlank("" + OpenTag + m + CloseTag, x, 0);
    }
    ScanPair("", m, x, true);
  }


  /** The last character of s, if any, is not whitespace. */
  predicate EndsInText(s: string)
  {
    s == [] || !IsSpace(s[|s| - 1])
  }

  /** A strict decode that succeeds consumed the text up to a close tag at
      its very end. */
  lemma {:induction false} ScanStrictEndsWithClose(t: string)
    requires Find(t, OpenTag) >= 0 && EndsInText(t)
    ensures Scan(t, true).Ok? ==> |t| >= 4 && t[|t| - 4..] == CloseTag
    decreases |t|
  {
    var b := Find(t, OpenTag);
    var rest := t[b + 3..];
    var e := Find(rest, CloseTag);
    var after := PySliceFrom(rest, e + 4);
    ScanIs(t, true, b, rest, e, Strip(PySliceTo(rest, e)), after);
    if |Strip(t[..b])| == 0 && e != -1 {
      AfterCloseTail(t, b, rest, e, after);
      if after != [] && Find(after, OpenTag) >= 0 {
        ScanStrictEndsWithClose(after);
      }
    }
  }

  /** What follows a close tag is a proper suffix of the text; if nothing
      follows, the text ends with that close tag. */
  lemma AfterCloseTail(t: string, b: int, rest: string, e: int, after: string)
    requires 0 <= b && b + 3 <= |t| && rest == t[b + 3..]
    requires 0 <= e && OccursAt(rest, CloseTag, e) && after == PySliceFrom(rest, e + 4)
    ensures |after| < |t|
    ensures after == [] ==> |t| >= 4 && t[|t| - 4..] == CloseTag
    ensures EndsInText(t) ==> EndsInText(after)
    ensures EndsInText(t) && after != [] ==> |Strip(after)| != 0
    ensures |after| >= 4 ==> after[|after| - 4..] == t[|t| - 4..]
  {
    SliceFromIs(rest, e + 4);
    assert after == t[|t| - |after|..];
    if after == [] {
      assert t[|t| - 4..] == rest[e..e + 4];
    } else {
      assert after[|after| - 1] == t[|t| - 1];
    }
  }

  /** Whatever the strict decoder accepts, other than blank text, ends with
      a close tag: no unterminated sentence and no trailing text. */
  lemma StrictEndsWithCloseTag(text: string)
    requires DecodedStrict(text).Ok? && DecodedStrict(text).value != []
    ensures |Strip(text)| >= 4 && Strip(text)[|Strip(text)| - 4..] == CloseTag
  {
    ScanStrictEndsWithClose(Strip(text));
  }

  lemma BlankSuffix(s: string, k: int)
    requires IsBlank(s)
    ensures IsBlank(PySliceFrom(s, k))
  {
    var i := SliceBound(k, |s|);
    assert PySliceFrom(s, k) == s[i..];
    assert forall j :: 0 <= j < |s| - i ==> s[i..][j] == s[i + j];
  }

  /** Where the strict decoder succeeds, the decoder as written returns the
      same sentences. */
  lemma {:induction false} ScanStrictAgrees(t: string)
    requires Find(t, OpenTag) >= 0
    ensures Scan(t, true).Ok? ==> Scan(t, false) == Scan(t, true)
    decreases |t|
  {
    var b := Find(t, OpenTag);
    var rest := t[b + 3..];
    var e := Find(rest, CloseTag);
    var after := PySliceFrom(rest, e + 4);
    ScanIs(t, true, b, rest, e, Strip(PySliceTo(rest, e)), after);
    ScanIs(t, false, b, rest, e, Strip(PySliceTo(rest, e)), after);
    if |Strip(t[..b])| == 0 && e != -1 {
      if Find(after, OpenTag) >= 0 {
        ScanStrictAgrees(after);
      } else if |Strip(after)| == 0 {
        BlankSuffix(after, e + 4);
      }
    }
  }

  lemma StrictAgrees(text: string)
    requires DecodedStrict(text).Ok?
    ensures Decoded(text) == DecodedStrict(text)
  {
    if |Strip(text)| != 0 {
      ScanStrictAgrees(Strip(text));
    }
  }

  // ---------------------------------------------------------------------
  // Examples

  /** Two sentences, encoded with the double space between tag pairs, and
      decoded back. (The examples take their text as a parameter, and a
      helper lemma takes it apart, so that the verifier does not evaluate
      every function on the literal.) */
  lemma EncodeTwoSentences(l: seq<string>)
    requires l == ["Hi all.", "Bye."]
    ensures Encode(l) == " <t> Hi all. </t>  <t> Bye. </t> "
    ensures Decoded(Encode(l)) == Ok(l)
  {
    EncodeTwoSentencesText(l);
    TwoSentencesEncodable(l);
    RoundTrip(l);
  }

  lemma EncodeTwoSentencesText(l: seq<string>)
    requires l == ["Hi all.", "Bye."]
    ensures Encode(l) == " <t> Hi all. </t>  <t> Bye. </t> "
  {
    EncodePair(l, l[0], l[1]);
    assert SentenceStart + l[0] + SentenceEnd == " <t> Hi all. </t> ";
    assert SentenceStart + l[1] + SentenceEnd == " <t> Bye. </t> ";
    assert SentenceStart + l[0] + SentenceEnd + SentenceStart + l[1] + SentenceEnd
      == (SentenceStart + l[0] + SentenceEnd) + (SentenceStart + l[1] + SentenceEnd);
  }

  /** Encoding two sentences writes each between its own pair of tags. */
  lemma EncodePair(l: seq<string>, a: string, b: string)
    requires l == [a, b]
    ensures Encode(l) == SentenceStart + a + SentenceEnd + SentenceStart + b + SentenceEnd
  {
    assert Join(SentenceEnd + SentenceStart, l) == a + (SentenceEnd + SentenceStart) + b;
  }

  lemma TwoSentencesEncodable(l: seq<string>)
    requires l == ["Hi all.", "Bye."]
    ensures forall k :: 0 <= k < |l| ==> Encodable(l[k])
  {
    NoTagWithout(l[0], CloseTag, '<');
    NoTagWithout(l[1], CloseTag, '<');
  }

  /** Text before the first tag pair is rejected. */
  lemma TextBeforeTagsExample(t: string)
    requires t == "hello <t> a </t>"
    ensures Decoded(t) == Fail(TextOutsideTags)
  {
    assert t == "hello " + OpenTag + " a </t>";
    TextBeforeTagsShape(t);
    TextBeforeFirstTag(t, "hello ", " a </t>");
  }

  lemma TextBeforeTagsShape(t: string)
    requires t == "hello " + OpenTag + " a </t>"
    ensures Strip(t) == t && !Contains("hello ", OpenTag) && !IsBlank("hello ")
  {
    assert !IsSpace("hello "[0]);
    StripStripped(t);
    NoTagWithout("hello ", OpenTag, '<');
  }

  /** Text between two tag pairs is rejected. */
  lemma TextBetweenTagsExample(t: string)
    requires t == "<t> a </t> x <t> b </t>"
    ensures Decoded(t) == Fail(TextOutsideTags)
  {
    assert t == OpenTag + " a " + CloseTag + " x " + OpenTag + " b </t>";
    TextBetweenTagsShape(t);
    TextBetweenTags(t, " a ", " x ", " b </t>");
  }

  lemma TextBetweenTagsShape(t: string)
    requires t == OpenTag + " a " + CloseTag + " x " + OpenTag + " b </t>"
    ensures Strip(t) == t && !Contains(" a ", CloseTag) && !Contains(" x ", OpenTag)
    ensures !IsBlank(" x ")
  {
    assert !IsSpace(" x "[1]);
    StripStripped(t);
    NoTagWithout(" a ", CloseTag, '<');
    NoTagWithout(" x ", OpenTag, '<');
  }

  /** Text between the second and the third tag pair is rejected too. */
  lemma TextAfterSentencesExample(t: string)
    requires t == "<t> a </t>  <t> b </t> x <t> c </t>"
    ensures Decoded(t) == Fail(TextOutsideTags)
  {
    var l := ["a", "b"];
    TextAfterSentencesShape(t, l);
    TextAfterSentences(t, l, " x ", " c </t>");
  }

  lemma TextAfterSentencesShape(t: string, l: seq<string>)
    requires l == ["a", "b"] && t == "<t> a </t>  <t> b </t> x <t> c </t>"
    ensures l != [] && forall s <- l :: Encodable(s)
    ensures Strip(t) == Inner(l) + " x " + OpenTag + " c </t>"
    ensures !Contains(" x ", OpenTag) && !IsBlank(" x ")
  {
    TwoLettersShape(l);
    StripStripped(t);
    NoTagWithout(" x ", OpenTag, '<');
    assert !IsSpace(" x "[1]);
  }

  lemma TwoLettersShape(l: seq<string>)
    requires l == ["a", "b"]
    ensures Inner(l) == "<t> a </t>  <t> b </t>"
    ensures forall s <- l :: Encodable(s)
  {
    assert Inner(l[1..]) == "<t> b </t>";
    NoTagWithout("a", CloseTag, '<');
    NoTagWithout("b", CloseTag, '<');
  }

  /** An open tag inside a sentence does not start a new sentence. */
  lemma NestedOpenTagExample(t: string)
    requires t == "<t> a <t> b </t>"
    ensures Decoded(t) == Ok(["a <t> b"])
  {
    assert t == OpenTag + " a <t> b " + CloseTag + "";
    NestedOpenTagShape(t);
    StripSpaced(" a <t> b ", "a <t> b");
    TrailingAfterClose(t, " a <t> b ", "");
  }

  lemma NestedOpenTagShape(t: string)
    requires t == OpenTag + " a <t> b " + CloseTag + ""
    ensures Strip(t) == t
    ensures !Contains(" a <t> b ", CloseTag) && !Contains("", OpenTag)
  {
    StripStripped(t);
    NoTagWithout(" a <t> b ", CloseTag, '/');
    NoTagWithout("", OpenTag, '<');
  }

  /** A missing close tag costs the sentence its last character; the strict
      decoder rejects it. */
  lemma MissingCloseTagExample(t: string)
    requires t == "<t> abc"
    ensures Decoded(t) == Ok(["ab"])
    ensures DecodedStrict(t) == Fail(UnterminatedTag)
  {
    assert t == OpenTag + " abc";
    MissingCloseTagShape(t);
    assert Strip(PySliceTo(" abc", -1)) == "ab" by {
      assert PySliceTo(" abc", -1) == " " + "ab" + "";
      StripOf(" ", "ab", "");
    }
    MissingCloseTag(t, " abc");
    StrictMissingCloseTag(t, " abc");
  }

  lemma MissingCloseTagShape(t: string)
    requires t == OpenTag + " abc"
    ensures Strip(t) == t
    ensures !Contains(" abc", CloseTag) && !Contains(" abc", OpenTag)
  {
    StripStripped(t);
    NoTagWithout(" abc", CloseTag, '<');
    NoTagWithout(" abc", OpenTag, '<');
  }

  /** With a missing close tag, a one-character sentence comes back empty. */
  lemma MissingCloseTagShortExample(t: string)
    requires t == "<t> a"
    ensures Decoded(t) == Ok([""])
  {
    assert t == OpenTag + " a";
    MissingCloseTagShortShape(t, " a", 'a');
    MissingCloseTag(t, " a");
  }

  lemma MissingCloseTagShortShape(t: string, x: string, c: char)
    requires (c == 'a' || c == 'b') && x == " " + [c] && t == OpenTag + x
    ensures Strip(t) == t && Strip(PySliceTo(x, -1)) == ""
    ensures !Contains(x, CloseTag) && !Contains(x, OpenTag)
  {
    StripStripped(t);
    DropLast(" ", [c]);
    SpacesBlank();
    NoTagWithout(x, CloseTag, '<');
    NoTagWithout(x, OpenTag, '<');
  }

  /** Without a close tag, decoding goes on inside the same text: the
      first sentence keeps the second open tag and the second comes back
      empty. */
  lemma MissingCloseTagNestedExample(t: string)
    requires t == "<t> a <t> b"
    ensures Decoded(t) == Ok(["a <t>", ""])
  {
    var w := "a " + OpenTag;
    assert w == "a <t>";
    assert t == OpenTag + (" " + w + " " + "b");
    MissingCloseTagNested(t, w, " " + w + " " + "b", OpenTag + " b");
  }

  lemma MissingCloseTagNested(t: string, w: string, r: string, u: string)
    requires w == "a " + OpenTag && r == " " + w + " " + "b" && t == OpenTag + r
    requires u == OpenTag + " b"
    ensures Decoded(t) == Ok([w, ""])
  {
    assert Scan(u, false) == Ok([""]) by {
      MissingCloseTagShortShape(u, " b", 'b');
      OpenTagFirst(u, " b");
      MissingCloseTag(u, " b");
    }
    assert Decoded(t) == Prepend([w], Scan(u, false)) by {
      MissingCloseTagNestedShape(t, w, r, u);
      OpenTagFirst(u, " b");
      MissingCloseTag(t, r);
    }
    assert [w] + [""] == [w, ""];
  }

  lemma MissingCloseTagNestedShape(t: string, w: string, r: string, u: string)
    requires w == "a " + OpenTag && r == " " + w + " " + "b" && t == OpenTag + r
    requires u == OpenTag + " b"
    ensures Strip(t) == t && !Contains(r, CloseTag)
    ensures PySliceFrom(r, 3) == u
    ensures Strip(PySliceTo(r, -1)) == w
  {
    StripStripped(t);
    NoTagWithout(r, CloseTag, '/');
    assert PySliceFrom(r, 3) == u;
    DropLast(" " + w + " ", "b");
    StripSpaced(" " + w + " ", w);
  }

  /** A text that starts with an open tag finds it at 0. */
  lemma OpenTagFirst(u: string, x: string)
    requires u == OpenTag + x
    ensures Find(u, OpenTag) == 0
  {
    assert !Contains([], OpenTag);
    assert [] + OpenTag + x == u;
    FindTagAfter([], OpenTag, x);
  }

  /** s[:-1] drops the one character added at the end. */
  lemma DropLast(x: string, c: string)
    requires |c| == 1
    ensures PySliceTo(x + c, -1) == x
  {
    assert (x + c)[..|x|] == x;
  }

  /** Short trailing text after the last close tag is accepted; the strict
      decoder rejects it. */
  lemma ShortTrailingTextExample(t: string)
    requires t == "<t> a </t> world"
    ensures Decoded(t) == Ok(["a"])
    ensures DecodedStrict(t) == Fail(TextAfterLastTag)
  {
    assert t == OpenTag + " a " + CloseTag + " world";
    ShortTrailingTextShape(t);
    TrailingAfterClose(t, " a ", " world");
    StrictTrailingAfterClose(t, " a ", " world");
  }

  lemma ShortTrailingTextShape(t: string)
    requires t == OpenTag + " a " + CloseTag + " world"
    ensures Strip(t) == t && Strip(" a ") == "a"
    ensures !Contains(" a ", CloseTag) && !Contains(" world", OpenTag)
  {
    StripStripped(t);
    StripSpaced(" a ", "a");
    NoTagWithout(" a ", CloseTag, '<');
    NoTagWithout(" world", OpenTag, '<');
  }

  /** Trailing text longer than the sentence plus four characters is
      rejected. */
  lemma LongTrailingTextExample(t: string)
    requires t == "<t> a </t> hello world"
    ensures Decoded(t) == Fail(TextAfterLastTag)
  {
    assert t == OpenTag + " a " + CloseTag + " hello world";
    LongTrailingTextShape(t);
    TrailingAfterClose(t, " a ", " hello world");
  }

  lemma LongTrailingTextShape(t: string)
    requires t == OpenTag + " a " + CloseTag + " hello world"
    ensures Strip(t) == t
    ensures !Contains(" a ", CloseTag) && !Contains(" hello world", OpenTag)
  {
    StripStripped(t);
    NoTagWithout(" a ", CloseTag, '<');
    NoTagWithout(" hello world", OpenTag, '<');
  }
}
