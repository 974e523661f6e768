/** The upload filename sanitiser and the MIME filters of the upload routes.

    A stored name is built from the client's name in two parts: its stem,
    reduced to lower-case letters, digits, `.`, `_` and `-` with runs of
    dashes collapsed and no dash at either end, and its extension,
    lower-cased. Strings are sequences of Unicode scalar values; the
    sanitiser's character class works on UTF-16 code units, but a character
    outside the basic plane becomes a run of dashes either way, and runs
    collapse to one dash, so the result is the same. */
module Filenames {
  import opened Results

  /** The characters `String.prototype.trim` removes: white space and line
      terminators of ECMAScript, including the byte-order mark. */
  predicate IsSpace(c: char) {
    || c == '\t' || c == '\n' || c == '\U{000B}' || c == '\U{000C}' || c == '\r' || c == ' '
    || c == '\U{00A0}' || c == '\U{1680}' || ('\U{2000}' <= c <= '\U{200A}')
    || c == '\U{2028}' || c == '\U{2029}' || c == '\U{202F}' || c == '\U{205F}'
    || c == '\U{3000}' || c == '\U{FEFF}'
  }

  /** The number of white-space characters at the front of `s`. */
  function LeadingSpaces(s: string): (n: nat)
    ensures n <= |s|
    ensures forall k :: 0 <= k < n ==> IsSpace(s[k])
    ensures n == |s| || !IsSpace(s[n])
  {
    if |s| == 0 || !IsSpace(s[0]) then 0 else 1 + LeadingSpaces(s[1..])
  }

  /** The number of white-space characters at the back of `s`. */
  function TrailingSpaces(s: string): (n: nat)
    ensures n <= |s|
    ensures forall k :: |s| - n <= k < |s| ==> IsSpace(s[k])
    ensures n == |s| || !IsSpace(s[|s| - n - 1])
  {
    if |s| == 0 || !IsSpace(s[|s| - 1]) then 0 else 1 + TrailingSpaces(s[..|s| - 1])
  }

  /** `trim`: the slice of `s` between its leading and trailing white space. */
  function Trim(s: string): (r: string)
    ensures LeadingSpaces(s) + |r| <= |s|
    ensures r == s[LeadingSpaces(s)..LeadingSpaces(s) + |r|]
    ensures |r| > 0 ==> !IsSpace(r[0]) && !IsSpace(r[|r| - 1])
    ensures forall k :: 0 <= k < LeadingSpaces(s) ==> IsSpace(s[k])
    ensures forall k :: LeadingSpaces(s) + |r| <= k < |s| ==> IsSpace(s[k])
  {
    var i := LeadingSpaces(s);
    if i == |s| then ""
    else
      var j := |s| - TrailingSpaces(s);
      assert !IsSpace(s[i]);
      s[i..j]
  }

  /** A string with no white space is its own trim. */
  lemma TrimNoSpace(s: string)
    requires forall k :: 0 <= k < |s| ==> !IsSpace(s[k])
    ensures Trim(s) == s
  {
    if |s| > 0 {
      assert LeadingSpaces(s) == 0;
      assert TrailingSpaces(s) == 0;
    }
  }

  predicate IsUpper(c: char) {
    'A' <= c <= 'Z' || c == '\U{212A}' || c == '\U{0130}'
  }

  /** `toLowerCase` of one character. Only three kinds of character lower to
      something the sanitiser keeps: the ASCII capitals, KELVIN SIGN (to
      `k`) and LATIN CAPITAL LETTER I WITH DOT ABOVE (to `i` and a combining
      dot). Every other character is kept as it is. */
  function LowerChar(c: char): (r: string)
    ensures |r| >= 1
    ensures forall d :: d in r ==> !IsUpper(d)
    ensures !IsUpper(c) ==> r == [c]
    ensures forall d :: d in r ==> (d == '.' <==> c == '.') && (d == '/' <==> c == '/')
    ensures 'A' <= c <= 'Z' ==> r == [(c as int - 'A' as int + 'a' as int) as char]
    ensures c == '\U{212A}' ==> r == "k"
    ensures c == '\U{0130}' ==> r == "i\U{0307}"
    ensures c != '\U{0130}' ==> |r| == 1
  {
    if 'A' <= c <= 'Z' then [(c as int + 32) as char]
    else if c == '\U{212A}' then "k"
    else if c == '\U{0130}' then "i\U{0307}"
    else [c]
  }

  /** `toLowerCase` of a string. */
  function Lower(s: string): (r: string)
    ensures |r| >= |s|
    ensures forall d :: d in r ==> !IsUpper(d)
    ensures (forall c :: c in s ==> !IsUpper(c)) ==> r == s
    ensures '\U{0130}' !in s ==> |r| == |s| && forall k :: 0 <= k < |s| ==> [r[k]] == LowerChar(s[k])
  {
    if |s| == 0 then ""
    else
      assert forall c :: c in s[1..] ==> c in s;
      LowerChar(s[0]) + Lower(s[1..])
  }

  /** Lower-casing brings in no dot and no slash. */
  lemma {:induction false} LowerKeepsAbsent(s: string, c: char)
    requires c == '.' || c == '/'
    requires c !in s
    ensures c !in Lower(s)
  {
    if |s| > 0 {
      assert s[0] in s;
      assert forall d :: d in s[1..] ==> d in s;
      LowerKeepsAbsent(s[1..], c);
    }
  }

  lemma LowerIdempotent(s: string)
    ensures Lower(Lower(s)) == Lower(s)
  {
  }

  /** The characters a sanitised stem may hold: `[a-z0-9._-]`. */
  predicate Allowed(c: char) {
    ('a' <= c <= 'z') || ('0' <= c <= '9') || c == '.' || c == '_' || c == '-'
  }

  /** `replace(/[^a-z0-9._-]/g, '-')`. */
  function ReplaceDisallowed(s: string): (r: string)
    ensures |r| == |s|
    ensures forall k :: 0 <= k < |s| ==> (Allowed(s[k]) ==> r[k] == s[k]) && (!Allowed(s[k]) ==> r[k] == '-')
    ensures forall c :: c in r ==> Allowed(c)
  {
    if |s| == 0 then ""
    else [if Allowed(s[0]) then s[0] else '-'] + ReplaceDisallowed(s[1..])
  }

  predicate NoDoubleDash(s: string) {
    forall k :: 0 <= k < |s| - 1 ==> !(s[k] == '-' && s[k + 1] == '-')
  }

  /** `replace(/-+/g, '-')`: every run of dashes becomes one dash. A dash
      followed by another dash is dropped. */
  function CollapseDashes(s: string): (r: string)
    ensures |r| <= |s|
    ensures NoDoubleDash(r)
    ensures forall c :: c in r ==> c in s
    ensures |s| > 0 ==> |r| > 0 && r[0] == s[0] && r[|r| - 1] == s[|s| - 1]
    ensures NoDoubleDash(s) ==> r == s
  {
    if |s| <= 1 then s
    else
      assert forall c :: c in s[1..] ==> c in s;
      if s[0] == '-' && s[1] == '-' then CollapseDashes(s[1..])
      else [s[0]] + CollapseDashes(s[1..])
  }

  /** Two adjacent dashes collapse as one: together with the fixed point on
      strings without a double dash, this determines the collapse. */
  lemma {:induction false} CollapseDoubleDash(a: string, b: string)
    ensures CollapseDashes(a + "--" + b) == CollapseDashes(a + "-" + b)
    decreases |a|
  {
    if |a| == 0 {
      CollapseLeadingDoubleDash(a, b);
    } else {
      CollapseDoubleDash(a[1..], b);
      CollapseDoubleDashStep(a, b);
    }
  }

  lemma CollapseLeadingDoubleDash(a: string, b: string)
    requires |a| == 0
    ensures CollapseDashes(a + "--" + b) == CollapseDashes(a + "-" + b)
  {
    assert a + "--" + b == ['-'] + (a + "-" + b);
    CollapseCons('-', a + "-" + b);
  }

  lemma CollapseDoubleDashStep(a: string, b: string)
    requires |a| > 0
    requires CollapseDashes(a[1..] + "--" + b) == CollapseDashes(a[1..] + "-" + b)
    ensures CollapseDashes(a + "--" + b) == CollapseDashes(a + "-" + b)
  {
    DashSplit(a, b);
    CollapseSameStep(a[0], a[1..] + "--" + b, a[1..] + "-" + b);
  }

  lemma DashSplit(a: string, b: string)
    requires |a| > 0
    ensures a + "--" + b == [a[0]] + (a[1..] + "--" + b)
    ensures a + "-" + b == [a[0]] + (a[1..] + "-" + b)
    ensures |a[1..] + "-" + b| > 0
    ensures (a[1..] + "--" + b)[0] == (a[1..] + "-" + b)[0]
  {
  }

  /** Strings that collapse alike and start alike still do after a common
      first character. */
  lemma CollapseSameStep(x: char, s: string, t: string)
    requires |s| > 0 && |t| > 0 && s[0] == t[0]
    requires CollapseDashes(s) == CollapseDashes(t)
    ensures CollapseDashes([x] + s) == CollapseDashes([x] + t)
  {
    CollapseCons(x, s);
    CollapseCons(x, t);
  }

  /** One step of the collapse: a dash before a dash is dropped. */
  lemma CollapseCons(x: char, rest: string)
    requires |rest| > 0
    ensures CollapseDashes([x] + rest)
      == if x == '-' && rest[0] == '-' then CollapseDashes(rest) else [x] + CollapseDashes(rest)
  {
    assert ([x] + rest)[1..] == rest;
  }

  /** Lower-casing works character by character. */
  lemma {:induction false} LowerConcat(a: string, b: string)
    ensures Lower(a + b) == Lower(a) + Lower(b)
    decreases |a|
  {
    if |a| > 0 {
      var x, tail := a[0], a[1..];
      assert a + b == [x] + (tail + b);
      assert a == [x] + tail;
      calc {
        Lower(a + b);
        { LowerCons(x, tail + b); }
        LowerChar(x) + Lower(tail + b);
        { LowerConcat(tail, b); }
        LowerChar(x) + (Lower(tail) + Lower(b));
        (LowerChar(x) + Lower(tail)) + Lower(b);
        { LowerCons(x, tail); }
        Lower(a) + Lower(b);
      }
    } else {
      assert a + b == b;
    }
  }

  lemma LowerCons(c: char, rest: string)
    ensures Lower([c] + rest) == LowerChar(c) + Lower(rest)
  {
    assert ([c] + rest)[1..] == rest;
  }

  /** The number of characters the leading-dash alternative removes. */
  function LeadDash(s: string): (n: nat)
    ensures n <= |s| && n <= 1
    ensures n == 1 <==> |s| > 0 && s[0] == '-'
  {
    if |s| > 0 && s[0] == '-' then 1 else 0
  }

  /** `replace(/^-|-$/g, '')`: one leading dash, then one trailing dash of
      what remains. */
  function StripEdgeDash(s: string): (r: string)
    ensures LeadDash(s) + |r| <= |s| && r == s[LeadDash(s)..LeadDash(s) + |r|]
    ensures NoDoubleDash(s) ==> |r| == 0 || (r[0] != '-' && r[|r| - 1] != '-')
    ensures (|s| == 0 || (s[0] != '-' && s[|s| - 1] != '-')) ==> r == s
    ensures forall k :: 0 <= k < LeadDash(s) ==> s[k] == '-'
    ensures LeadDash(s) + |r| + 1 >= |s|
    ensures forall k :: LeadDash(s) + |r| <= k < |s| ==> s[k] == '-'
  {
    var i := LeadDash(s);
    if i < |s| && s[|s| - 1] == '-' then s[i..|s| - 1] else s[i..]
  }

  lemma StripKeepsChars(s: string)
    ensures forall c :: c in StripEdgeDash(s) ==> c in s
    ensures NoDoubleDash(s) ==> NoDoubleDash(StripEdgeDash(s))
  {
    var r := StripEdgeDash(s);
    var i := LeadDash(s);
    forall k | 0 <= k < |r|
      ensures r[k] == s[i + k]
    {
    }
  }

  /** What the sanitiser produces from a stem: allowed characters only, no
      run of dashes, no dash at either end. */
  predicate IsSafeStem(s: string) {
    && (forall c :: c in s ==> Allowed(c))
    && NoDoubleDash(s)
    && (|s| == 0 || (s[0] != '-' && s[|s| - 1] != '-'))
  }

  /** The stem pipeline: trim, lower-case, replace, collapse, strip. */
  function SanitizeStem(s: string): (r: string)
    ensures IsSafeStem(r)
  {
    var c := CollapseDashes(ReplaceDisallowed(Lower(Trim(s))));
    StripKeepsChars(c);
    StripEdgeDash(c)
  }

  lemma SafeStemUnchanged(s: string)
    requires IsSafeStem(s)
    ensures SanitizeStem(s) == s
  {
    SafeStemPlain(s);
    TrimNoSpace(s);
    ReplaceAllowed(s);
    calc {
      SanitizeStem(s);
      { SanitizeStemSteps(s); }
      StripEdgeDash(CollapseDashes(ReplaceDisallowed(Lower(Trim(s)))));
      StripEdgeDash(CollapseDashes(ReplaceDisallowed(Lower(s))));
      StripEdgeDash(CollapseDashes(ReplaceDisallowed(s)));
      StripEdgeDash(CollapseDashes(s));
      StripEdgeDash(s);
      s;
    }
  }

  lemma ReplaceAllowed(s: string)
    requires forall c :: c in s ==> Allowed(c)
    ensures ReplaceDisallowed(s) == s
  {
    var r := ReplaceDisallowed(s);
    forall k | 0 <= k < |s|
      ensures r[k] == s[k]
    {
      assert s[k] in s;
    }
  }

  lemma SanitizeStemSteps(s: string)
    ensures SanitizeStem(s) == StripEdgeDash(CollapseDashes(ReplaceDisallowed(Lower(Trim(s)))))
  {
  }

  /** A sanitised stem holds neither white space nor a capital. */
  lemma SafeStemPlain(s: string)
    requires IsSafeStem(s)
    ensures forall k :: 0 <= k < |s| ==> !IsSpace(s[k])
    ensures forall c :: c in s ==> !IsUpper(c)
  {
    forall k | 0 <= k < |s|
      ensures !IsSpace(s[k])
    {
      assert Allowed(s[k]);
    }
    forall c | c in s
      ensures !IsUpper(c)
    {
      assert Allowed(c);
    }
  }

  /** The sanitised stems are exactly the fixed points of the sanitiser. */
  lemma SafeStemIffFixedPoint(s: string)
    ensures IsSafeStem(s) <==> SanitizeStem(s) == s
  {
    if IsSafeStem(s) {
      SafeStemUnchanged(s);
    }
  }

  lemma SanitizeStemIdempotent(s: string)
    ensures SanitizeStem(SanitizeStem(s)) == SanitizeStem(s)
  {
    SafeStemUnchanged(SanitizeStem(s));
  }

  /** No '.' anywhere but possibly the first position. */
  predicate DotsOnlyFirst(s: string) {
    forall k :: 0 < k < |s| ==> s[k] != '.'
  }

  lemma NoDotAfterFirst(s: string)
    requires DotsOnlyFirst(s) && |s| > 0
    ensures '.' !in s[1..]
  {
    forall k | 0 <= k < |s| - 1
      ensures s[1..][k] != '.'
    {
      assert s[1..][k] == s[k + 1];
    }
  }

  lemma SliceDotsOnlyFirst(s: string, i: nat, j: nat)
    requires i <= j <= |s|
    requires DotsOnlyFirst(s)
    requires i > 0 ==> s[0] != '.'
    ensures DotsOnlyFirst(s[i..j])
  {
    forall k | 0 < k < j - i
      ensures s[i..j][k] != '.'
    {
      assert s[i..j][k] == s[i + k];
    }
  }

  lemma {:induction false} LowerDotsOnlyFirst(s: string)
    requires DotsOnlyFirst(s)
    ensures DotsOnlyFirst(Lower(s))
  {
    if |s| > 0 {
      var head := LowerChar(s[0]);
      var tail := Lower(s[1..]);
      NoDotAfterFirst(s);
      LowerKeepsAbsent(s[1..], '.');
      assert Lower(s) == head + tail;
      assert s[0] != '.' || |head| == 1;
      forall k | 0 < k < |head + tail|
        ensures (head + tail)[k] != '.'
      {
        if k < |head| {
          assert head[k] in head;
        } else {
          assert (head + tail)[k] == tail[k - |head|];
          assert tail[k - |head|] in tail;
        }
      }
    }
  }

  lemma ReplaceDotsOnlyFirst(s: string)
    requires DotsOnlyFirst(s)
    ensures DotsOnlyFirst(ReplaceDisallowed(s))
  {
    var r := ReplaceDisallowed(s);
    forall k | 0 < k < |r|
      ensures r[k] != '.'
    {
      assert s[k] != '.';
    }
  }

  lemma {:induction false} CollapseDotsOnlyFirst(s: string)
    requires DotsOnlyFirst(s)
    ensures DotsOnlyFirst(CollapseDashes(s))
  {
    if |s| > 1 {
      var tail := CollapseDashes(s[1..]);
      NoDotAfterFirst(s);
      assert '.' !in tail;
      if !(s[0] == '-' && s[1] == '-') {
        assert CollapseDashes(s) == [s[0]] + tail;
        forall k | 0 < k < |[s[0]] + tail|
          ensures ([s[0]] + tail)[k] != '.'
        {
          assert ([s[0]] + tail)[k] == tail[k - 1];
          assert tail[k - 1] in tail;
        }
      } else {
        forall k | 0 <= k < |tail|
          ensures tail[k] != '.'
        {
          assert tail[k] in tail;
        }
      }
    }
  }

  /** A stem with no dot past its first character keeps that shape. */
  lemma SanitizeDotsOnlyFirst(s: string)
    requires DotsOnlyFirst(s)
    ensures DotsOnlyFirst(SanitizeStem(s))
  {
    TrimLowerDotsOnlyFirst(s);
    var c := CollapseDashes(ReplaceDisallowed(Lower(Trim(s))));
    CollapseDotsOnlyFirst(ReplaceDisallowed(Lower(Trim(s))));
    SliceDotsOnlyFirst(c, LeadDash(c), LeadDash(c) + |StripEdgeDash(c)|);
  }

  lemma TrimLowerDotsOnlyFirst(s: string)
    requires DotsOnlyFirst(s)
    ensures DotsOnlyFirst(ReplaceDisallowed(Lower(Trim(s))))
  {
    var t := Trim(s);
    SliceDotsOnlyFirst(s, LeadingSpaces(s), LeadingSpaces(s) + |t|);
    LowerDotsOnlyFirst(t);
    ReplaceDotsOnlyFirst(Lower(t));
  }

  /** The path with its trailing slashes removed. */
  function StripTrailingSlashes(s: string): (r: string)
    ensures r <= s
    ensures |r| == 0 || r[|r| - 1] != '/'
    ensures forall k :: |r| <= k < |s| ==> s[k] == '/'
  {
    if |s| > 0 && s[|s| - 1] == '/' then StripTrailingSlashes(s[..|s| - 1]) else s
  }

  /** What follows the last slash. */
  function AfterLastSlash(s: string): (r: string)
    ensures '/' !in r
    ensures |r| <= |s| && r == s[|s| - |r|..]
    ensures '/' !in s ==> r == s
    ensures |r| < |s| ==> s[|s| - |r| - 1] == '/'
  {
    if |s| == 0 || s[|s| - 1] == '/' then ""
    else AfterLastSlash(s[..|s| - 1]) + [s[|s| - 1]]
  }

  /** The last segment of a path, the part `basename` and `extname` look at. */
  function Segment(s: string): (r: string)
    ensures '/' !in r
    ensures '/' !in s ==> r == s
    ensures var p := StripTrailingSlashes(s);
      && (forall k :: |p| <= k < |s| ==> s[k] == '/')
      && |r| <= |p| && r == p[|p| - |r|..]
      && (|r| < |p| ==> p[|p| - |r| - 1] == '/')
  {
    var p := StripTrailingSlashes(s);
    var r := AfterLastSlash(p);
    assert '/' !in s ==> p == s by {
      if '/' !in s && |p| < |s| {
        assert false;
      }
    }
    r
  }

  /** The position of the last '.', if any. */
  function LastDot(s: string): (r: Option<nat>)
    ensures r.None? <==> '.' !in s
    ensures r.Some? ==> r.value < |s| && s[r.value] == '.'
    ensures r.Some? ==> forall k :: r.value < k < |s| ==> s[k] != '.'
  {
    if |s| == 0 then None
    else if s[|s| - 1] == '.' then Some(|s| - 1)
    else
      assert forall k :: 0 <= k < |s| - 1 ==> s[..|s| - 1][k] == s[k];
      LastDot(s[..|s| - 1])
  }

  /** `path.extname` of a segment: from its last dot to the end, unless there
      is no dot, the only dot that counts is the first character (a dotfile),
      or the segment is `..`. */
  function ExtName(seg: string): (r: string)
    ensures |r| <= |seg| && r == seg[|seg| - |r|..]
    ensures r != "" ==> |r| < |seg| && r[0] == '.' && '.' !in r[1..]
    ensures '.' !in seg ==> r == ""
    ensures '/' !in seg ==> '/' !in r
  {
    match LastDot(seg)
    case None => ""
    case Some(i) =>
      if i == 0 || seg == ".." then ""
      else
        var r := seg[i..];
        forall k | 0 <= k < |r| - 1
          ensures r[1..][k] != '.'
        {
          assert r[1..][k] == seg[i + 1 + k];
        }
        assert '/' in r ==> '/' in seg by {
          if '/' in r {
            var k :| 0 <= k < |r| && r[k] == '/';
            assert seg[i + k] == '/';
          }
        }
        r
  }

  /** A segment without extension is a plain name or a dotfile. */
  lemma NoExtDotsOnlyFirst(seg: string)
    requires ExtName(seg) == "" && seg != ".."
    ensures DotsOnlyFirst(seg)
  {
    match LastDot(seg)
    case None =>
    case Some(i) =>
      assert i == 0;
  }

  /** `path.basename(name, ext)`: the segment without its extension. */
  function BaseStem(seg: string): (r: string)
    ensures r + ExtName(seg) == seg
  {
    seg[..|seg| - |ExtName(seg)|]
  }

  /** A stored name: a non-empty sanitised stem followed by `ext`. */
  predicate StemThenExt(r: string, ext: string) {
    |ext| < |r| && r[|r| - |ext|..] == ext && IsSafeStem(r[..|r| - |ext|])
  }

  lemma JoinStemThenExt(stem: string, ext: string)
    requires IsSafeStem(stem) && stem != ""
    ensures StemThenExt(stem + ext, ext)
  {
    var r := stem + ext;
    assert r[..|stem|] == stem;
    assert r[|stem|..] == ext;
  }

  /** The stem a stored name starts with: the sanitised stem of the
      segment, or `file` when nothing is left of it. */
  function StoredStem(seg: string): (r: string)
    ensures IsSafeStem(r) && r != ""
    ensures SanitizeStem(BaseStem(seg)) != "" ==> r == SanitizeStem(BaseStem(seg))
    ensures SanitizeStem(BaseStem(seg)) == "" ==> r == "file"
  {
    var safe := SanitizeStem(BaseStem(seg));
    if safe == "" then FileStem(); "file" else safe
  }

  /** The fallback stem is a safe stem without a dot. */
  lemma FileStem()
    ensures IsSafeStem("file") && DotsOnlyFirst("file")
  {
    assert "file" == ['f', 'i', 'l', 'e'];
  }

  lemma NoSlashJoin(stem: string, ext: string)
    requires IsSafeStem(stem) && '/' !in ext
    ensures '/' !in stem + ext
  {
    assert !Allowed('/');
  }

  /** `sanitizeFilename`: the sanitised stem, or `file` when nothing is left
      of it, followed by the lower-cased extension. The stored name has no
      slash, and ends in the lower-cased extension of the client's name
      after a non-empty sanitised stem. */
  function SanitizeFilename(name: string): (r: string)
    ensures '/' !in r
    ensures StemThenExt(r, Lower(ExtName(Segment(name))))
    ensures SanitizeStem(BaseStem(Segment(name))) != "" ==>
      r == SanitizeStem(BaseStem(Segment(name))) + Lower(ExtName(Segment(name)))
    ensures SanitizeStem(BaseStem(Segment(name))) == "" ==> r == "file" + Lower(ExtName(Segment(name)))
  {
    var seg := Segment(name);
    var ext := ExtName(seg);
    var stem := StoredStem(seg);
    JoinStemThenExt(stem, Lower(ext));
    LowerKeepsAbsent(ext, '/');
    NoSlashJoin(stem, Lower(ext));
    stem + Lower(ext)
  }

  /** A name the sanitiser reduces to nothing falls back to `file`. */
  lemma EmptyStemFallsBack(name: string)
    requires SanitizeStem(BaseStem(Segment(name))) == ""
    ensures SanitizeFilename(name) == "file" + Lower(ExtName(Segment(name)))
  {
  }

  /** The extension of a non-empty stem followed by an extension is that
      extension. */
  lemma ExtOfJoin(stem: string, ext: string)
    requires stem != "" && |ext| > 0 && ext[0] == '.' && '.' !in ext[1..]
    requires stem + ext != ".."
    ensures ExtName(stem + ext) == ext
  {
    var s := stem + ext;
    assert s[|stem|] == ext[0];
    assert s[|stem|] in s;
    forall k | |stem| < k < |s|
      ensures s[k] != '.'
    {
      assert s[k] == ext[1..][k - |stem| - 1];
    }
    var d := LastDot(s).value;
    assert !(d < |stem|);
    assert !(d > |stem|);
    assert s[|stem|..] == ext;
  }

  lemma LowerKeepsExtShape(ext: string)
    requires ext != "" && ext[0] == '.' && '.' !in ext[1..]
    ensures Lower(ext) != "" && Lower(ext)[0] == '.' && '.' !in Lower(ext)[1..]
  {
    var l := Lower(ext);
    assert l == "." + Lower(ext[1..]);
    assert l[1..] == Lower(ext[1..]);
    LowerKeepsAbsent(ext[1..], '.');
  }

  lemma IdempotentWithExt(stem: string, ext: string)
    requires IsSafeStem(stem) && stem != ""
    requires |ext| > 0 && ext[0] == '.' && '.' !in ext[1..] && '/' !in ext
    requires forall c :: c in ext ==> !IsUpper(c)
    requires stem + ext != ".."
    ensures SanitizeFilename(stem + ext) == stem + ext
  {
    var r := stem + ext;
    assert '/' !in r by {
      forall k | 0 <= k < |r|
        ensures r[k] != '/'
      {
        if k < |stem| {
          assert r[k] == stem[k];
          assert Allowed(stem[k]);
        } else {
          assert r[k] == ext[k - |stem|];
        }
      }
    }
    ExtOfJoin(stem, ext);
    assert BaseStem(r) == stem;
    SafeStemUnchanged(stem);
  }

  lemma IdempotentNoExt(stem: string)
    requires IsSafeStem(stem) && stem != "" && DotsOnlyFirst(stem)
    ensures SanitizeFilename(stem) == stem
  {
    assert '/' !in stem by {
      forall k | 0 <= k < |stem|
        ensures stem[k] != '/'
      {
        assert Allowed(stem[k]);
      }
    }
    assert ExtName(stem) == "" by {
      match LastDot(stem)
      case None =>
      case Some(i) =>
        assert i == 0;
    }
    assert BaseStem(stem) == stem;
    SafeStemUnchanged(stem);
  }

  /** A segment of two dots survives sanitising: it is made of allowed
      characters and has no extension. */
  lemma DotDotSurvives()
    ensures SanitizeFilename("..") == ".."
  {
    assert Segment("..") == "..";
    assert ExtName("..") == "";
    assert BaseStem("..") == "..";
    SafeStemUnchanged("..");
  }

  /** Sanitising a sanitised name changes nothing. */
  lemma SanitizeFilenameIdempotent(name: string)
    ensures SanitizeFilename(SanitizeFilename(name)) == SanitizeFilename(name)
  {
    var seg := Segment(name);
    assert SanitizeFilename(name) == StoredStem(seg) + Lower(ExtName(seg));
    StoredNameIsFixed(seg);
  }

  /** The name stored for a segment is a fixed point of the sanitiser. */
  lemma StoredNameIsFixed(seg: string)
    requires '/' !in seg
    ensures SanitizeFilename(StoredStem(seg) + Lower(ExtName(seg))) == StoredStem(seg) + Lower(ExtName(seg))
  {
    if StoredStem(seg) + Lower(ExtName(seg)) == ".." {
      DotDotSurvives();
    } else if ExtName(seg) != "" {
      StoredWithExtIsFixed(seg);
    } else {
      StoredWithoutExtIsFixed(seg);
    }
  }

  lemma StoredWithExtIsFixed(seg: string)
    requires '/' !in seg && ExtName(seg) != ""
    requires StoredStem(seg) + Lower(ExtName(seg)) != ".."
    ensures SanitizeFilename(StoredStem(seg) + Lower(ExtName(seg))) == StoredStem(seg) + Lower(ExtName(seg))
  {
    var ext := ExtName(seg);
    LowerKeepsExtShape(ext);
    LowerKeepsAbsent(ext, '/');
    IdempotentWithExt(StoredStem(seg), Lower(ext));
  }

  lemma StoredWithoutExtIsFixed(seg: string)
    requires ExtName(seg) == ""
    requires StoredStem(seg) + Lower(ExtName(seg)) != ".."
    ensures SanitizeFilename(StoredStem(seg) + Lower(ExtName(seg))) == StoredStem(seg) + Lower(ExtName(seg))
  {
    assert Lower("") == "";
    assert StoredStem(seg) + Lower(ExtName(seg)) == StoredStem(seg);
    DotDotStem();
    StemWithoutExt(seg);
    IdempotentNoExt(StoredStem(seg));
  }

  /** The segment `..` is its own stored stem. */
  lemma DotDotStem()
    ensures StoredStem("..") == ".."
  {
    assert ExtName("..") == "";
    assert BaseStem("..") == "..";
    SafeStemUnchanged("..");
  }

  /** Without an extension the stored stem keeps at most a leading dot. */
  lemma StemWithoutExt(seg: string)
    requires ExtName(seg) == "" && seg != ".."
    ensures DotsOnlyFirst(StoredStem(seg))
  {
    NoExtDotsOnlyFirst(seg);
    assert BaseStem(seg) == seg;
    SanitizeDotsOnlyFirst(seg);
    FileStem();
  }

  /** The MIME types the video route accepts. */
  const VideoMimes: set<string> := {"video/mp4", "video/webm", "video/ogg", "video/quicktime"}

  const PdfMime: string := "application/pdf"

  /** The video upload filter: the file passes or the request is refused. */
  function VideoFilter(mime: string): (r: Result<()>)
    ensures r.Ok? <==> mime in VideoMimes
    ensures r.Err? ==> r.error == BadRequest(InvalidFileType)
  {
    if mime in VideoMimes then Ok(()) else Err(BadRequest(InvalidFileType))
  }

  /** The PDF upload filter. */
  function PdfFilter(mime: string): (r: Result<()>)
    ensures r.Ok? <==> mime == PdfMime
    ensures r.Err? ==> r.error == BadRequest(InvalidFileType)
  {
    if mime == PdfMime then Ok(()) else Err(BadRequest(InvalidFileType))
  }

  /** No file passes both filters, and the type is compared exactly. */
  lemma FiltersDisjoint(mime: string)
    ensures !(VideoFilter(mime).Ok? && PdfFilter(mime).Ok?)
    ensures VideoFilter("video/MP4").Err?
  {
  }
}
