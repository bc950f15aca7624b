/**
 * The handful of Python `str` operations the order formatter and the log
 * statistics rely on, with Python's semantics written out:
 * `isspace`, `strip()`, `split()` with no separator, `replace(c, "")`,
 * `lower()`, the `in` operator on strings, `" ".join`, slicing `s[-n:]`
 * and the ordering `<` on strings.
 */
module PyStr {

  /** Python's `str.isspace()` for one character: the set that `strip()` and
      `split()` (without arguments) treat as whitespace. */
  predicate IsSpace(c: char) {
    var n := c as int;
    (0x09 <= n <= 0x0d) || (0x1c <= n <= 0x20) || n == 0x85 || n == 0xa0 ||
    n == 0x1680 || (0x2000 <= n <= 0x200a) || n == 0x2028 || n == 0x2029 ||
    n == 0x202f || n == 0x205f || n == 0x3000
  }

  predicate AllSpace(s: string) {
    forall k :: 0 <= k < |s| ==> IsSpace(s[k])
  }

  predicate NoSpace(s: string) {
    forall k :: 0 <= k < |s| ==> !IsSpace(s[k])
  }

  lemma AllSpaceAppend(a: string, b: string)
    ensures AllSpace(a + b) <==> AllSpace(a) && AllSpace(b)
  {
    if AllSpace(a) && AllSpace(b) {
      forall k | 0 <= k < |a + b| ensures IsSpace((a + b)[k]) {
        if k >= |a| { assert (a + b)[k] == b[k - |a|]; }
      }
    }
    if AllSpace(a + b) {
      forall k | 0 <= k < |a| ensures IsSpace(a[k]) {
        assert (a + b)[k] == a[k];
      }
      forall k | 0 <= k < |b| ensures IsSpace(b[k]) {
        assert (a + b)[|a| + k] == b[k];
      }
    }
  }

  // ---------------------------------------------------------------------------
  // strip()

  /** `s.lstrip()`: the suffix of `s` left after dropping its leading whitespace. */
  function LStrip(s: string): (r: string)
    ensures |r| <= |s|
  {
    if s != [] && IsSpace(s[0]) then LStrip(s[1..]) else s
  }

  /** `lstrip()` keeps a suffix that starts with a non-whitespace character
      and drops only whitespace. */
  lemma {:induction false} LStripSpec(s: string)
    ensures LStrip(s) == s[|s| - |LStrip(s)|..]
    ensures LStrip(s) == [] || !IsSpace(LStrip(s)[0])
    ensures forall k :: 0 <= k < |s| - |LStrip(s)| ==> IsSpace(s[k])
    decreases |s|
  {
    if s != [] && IsSpace(s[0]) {
      LStripSpec(s[1..]);
      forall k | 1 <= k < |s| - |LStrip(s)| ensures IsSpace(s[k]) {
        assert s[k] == s[1..][k - 1];
      }
    }
  }

  /** `s.rstrip()`: the prefix of `s` left after dropping its trailing whitespace. */
  function RStrip(s: string): (r: string)
    ensures |r| <= |s|
  {
    if s != [] && IsSpace(s[|s| - 1]) then RStrip(s[..|s| - 1]) else s
  }

  /** `rstrip()` keeps a prefix that ends with a non-whitespace character
      and drops only whitespace. */
  lemma {:induction false} RStripSpec(s: string)
    ensures RStrip(s) == s[..|RStrip(s)|]
    ensures RStrip(s) == [] || !IsSpace(RStrip(s)[|RStrip(s)| - 1])
    ensures forall k :: |RStrip(s)| <= k < |s| ==> IsSpace(s[k])
    decreases |s|
  {
    if s != [] && IsSpace(s[|s| - 1]) {
      var init := s[..|s| - 1];
      RStripSpec(init);
      assert RStrip(s) == init[..|RStrip(s)|] == s[..|RStrip(s)|];
      forall k | |RStrip(s)| <= k < |s| - 1 ensures IsSpace(s[k]) {
        assert s[k] == init[k];
      }
    }
  }

  /** `s.strip()`. */
  function Strip(s: string): (r: string)
    ensures |r| <= |s|
  {
    RStrip(LStrip(s))
  }

  /** `strip()` leaves no whitespace at either end. */
  lemma StripTrimmed(s: string)
    ensures Strip(s) == [] || (!IsSpace(Strip(s)[0]) && !IsSpace(Strip(s)[|Strip(s)| - 1]))
  {
    var l := LStrip(s);
    LStripSpec(s);
    RStripSpec(l);
    var r := RStrip(l);
    if r != [] {
      assert r[0] == l[0];
    }
  }

  /** How many leading characters `strip()` drops. */
  function StripStart(s: string): (i: nat)
    ensures i <= |s|
  {
    |s| - |LStrip(s)|
  }

  /** `strip()` keeps one contiguous piece of its input, ... */
  lemma StripIsSlice(s: string)
    ensures StripStart(s) + |Strip(s)| <= |s|
    ensures Strip(s) == s[StripStart(s)..StripStart(s) + |Strip(s)|]
  {
    var l := LStrip(s);
    var i := |s| - |l|;
    var r := RStrip(l);
    LStripSpec(s);
    RStripSpec(l);
    SliceOfSuffix(s, i, |r|);
  }

  lemma SliceOfSuffix(s: string, i: nat, n: nat)
    requires i + n <= |s|
    ensures s[i..][..n] == s[i..i + n]
  {
  }

  /** ... and what it drops around that piece is whitespace only. */
  lemma StripDropsOnlySpace(s: string)
    ensures forall k :: 0 <= k < StripStart(s) ==> IsSpace(s[k])
    ensures forall k :: StripStart(s) + |Strip(s)| <= k < |s| ==> IsSpace(s[k])
  {
    var l := LStrip(s);
    var i := |s| - |l|;
    var r := RStrip(l);
    LStripSpec(s);
    RStripSpec(l);
    assert Strip(s) == r;
    assert l == s[i..];
    forall k | i + |r| <= k < |s| ensures IsSpace(s[k]) {
      assert s[k] == l[k - i];
    }
  }

  /** `s.strip()` is empty exactly when `s` is empty or whitespace only. */
  lemma StripEmptyIffAllSpace(s: string)
    ensures Strip(s) == [] <==> AllSpace(s)
  {
    StripIsSlice(s);
    StripDropsOnlySpace(s);
    StripTrimmed(s);
    var t := Strip(s);
    assert t != [] ==> t[0] == s[StripStart(s)];
  }

  /** Stripping twice is stripping once. */
  lemma StripIdempotent(s: string)
    ensures Strip(Strip(s)) == Strip(s)
  {
    var t := Strip(s);
    StripTrimmed(s);
    if t != [] {
      assert LStrip(t) == t;
      assert RStrip(t) == t;
    }
  }

  // ---------------------------------------------------------------------------
  // split() without a separator

  /** Length of the run of non-whitespace characters that starts `s`. */
  function WordEnd(s: string): (n: nat)
    requires s != [] && !IsSpace(s[0])
    ensures 1 <= n <= |s|
    ensures n == |s| || IsSpace(s[n])
  {
    if |s| == 1 || IsSpace(s[1]) then 1 else 1 + WordEnd(s[1..])
  }

  /** The run `WordEnd` measures holds no whitespace. */
  lemma {:induction false} WordEndNoSpace(s: string)
    requires s != [] && !IsSpace(s[0])
    ensures NoSpace(s[..WordEnd(s)])
    decreases |s|
  {
    if !(|s| == 1 || IsSpace(s[1])) {
      WordEndNoSpace(s[1..]);
      forall k | 1 <= k < WordEnd(s) ensures !IsSpace(s[k]) {
        assert s[k] == s[1..][..WordEnd(s[1..])][k - 1];
      }
    }
  }

  /** `s.split()`: the maximal runs of non-whitespace characters, in order. */
  function Words(s: string): (ws: seq<string>)
    ensures forall i :: 0 <= i < |ws| ==> ws[i] != []
    decreases |s|
  {
    if s == [] then []
    else if IsSpace(s[0]) then Words(s[1..])
    else
      var n := WordEnd(s);
      [s[..n]] + Words(s[n..])
  }

  /** No word of `split()` holds whitespace. */
  lemma {:induction false} WordsNoSpace(s: string)
    ensures forall i :: 0 <= i < |Words(s)| ==> NoSpace(Words(s)[i])
    decreases |s|
  {
    if s == [] {
    } else if IsSpace(s[0]) {
      WordsNoSpace(s[1..]);
    } else {
      var n := WordEnd(s);
      WordEndNoSpace(s);
      WordsNoSpace(s[n..]);
      assert forall i :: 1 <= i < |Words(s)| ==> Words(s)[i] == Words(s[n..])[i - 1];
    }
  }

  /** A word followed by whitespace (or nothing) ends where the word ends. */
  lemma {:induction false} WordEndOfWord(w: string, t: string)
    requires w != [] && NoSpace(w) && (t == [] || IsSpace(t[0]))
    ensures WordEnd(w + t) == |w|
    decreases |w|
  {
    var s := w + t;
    assert s[0] == w[0];
    if |w| == 1 {
      assert s[1..] == t;
    } else {
      assert s[1] == w[1];
      assert s[1..] == w[1..] + t;
      WordEndOfWord(w[1..], t);
    }
  }

  /** `' '.join(ws).split() == ws` for non-empty words without whitespace:
      every word `split()` returns is a whole run of non-whitespace
      characters, never a piece of one. */
  lemma {:induction false} WordsOfJoin(ws: seq<string>)
    requires forall i :: 0 <= i < |ws| ==> ws[i] != [] && NoSpace(ws[i])
    ensures Words(Join(ws)) == ws
    decreases |ws|
  {
    if ws != [] {
      var w := ws[0];
      if |ws| == 1 {
        WordThen(w, []);
        assert w + [] == w;
      } else {
        var rest := Join(ws[1..]);
        assert Join(ws) == w + (" " + rest);
        WordThen(w, " " + rest);
        assert (" " + rest)[1..] == rest;
        WordsOfJoin(ws[1..]);
      }
      assert ws == [w] + ws[1..];
    }
  }

  /** A word followed by whitespace (or nothing) is the first word. */
  lemma WordThen(w: string, t: string)
    requires w != [] && NoSpace(w) && (t == [] || IsSpace(t[0]))
    ensures Words(w + t) == [w] + Words(t)
    ensures t != [] ==> Words(t) == Words(t[1..])
  {
    WordEndOfWord(w, t);
    assert (w + t)[0] == w[0];
    assert (w + t)[..|w|] == w;
    assert (w + t)[|w|..] == t;
  }

  /** The characters of `s` with the whitespace removed. */
  function NonSpace(s: string): string {
    if s == [] then [] else (if IsSpace(s[0]) then [] else [s[0]]) + NonSpace(s[1..])
  }

  function Concat(ws: seq<string>): string {
    if ws == [] then [] else ws[0] + Concat(ws[1..])
  }

  lemma {:induction false} NonSpaceAppend(a: string, b: string)
    ensures NonSpace(a + b) == NonSpace(a) + NonSpace(b)
    decreases |a|
  {
    if a == [] {
      assert a + b == b;
    } else {
      var h: string := if IsSpace(a[0]) then [] else [a[0]];
      assert (a + b)[0] == a[0];
      assert (a + b)[1..] == a[1..] + b;
      NonSpaceAppend(a[1..], b);
      calc {
        NonSpace(a + b);
        h + NonSpace(a[1..] + b);
        h + (NonSpace(a[1..]) + NonSpace(b));
        (h + NonSpace(a[1..])) + NonSpace(b);
        NonSpace(a) + NonSpace(b);
      }
    }
  }

  lemma {:induction false} NonSpaceOfWord(w: string)
    requires NoSpace(w)
    ensures NonSpace(w) == w
    decreases |w|
  {
    if w != [] { NonSpaceOfWord(w[1..]); }
  }

  /** `split()` loses only whitespace: gluing its words back together gives
      the input with every whitespace character removed. */
  lemma {:induction false} WordsKeepEveryOtherChar(s: string)
    ensures Concat(Words(s)) == NonSpace(s)
    decreases |s|
  {
    if s == [] {
    } else if IsSpace(s[0]) {
      WordsKeepEveryOtherChar(s[1..]);
    } else {
      var n := WordEnd(s);
      assert s == s[..n] + s[n..];
      NonSpaceAppend(s[..n], s[n..]);
      WordEndNoSpace(s);
      NonSpaceOfWord(s[..n]);
      WordsKeepEveryOtherChar(s[n..]);
      assert Words(s)[1..] == Words(s[n..]);
    }
  }

  /** `split()` returns no word exactly when the input is empty or whitespace only. */
  lemma {:induction false} WordsEmptyIffAllSpace(s: string)
    ensures Words(s) == [] <==> AllSpace(s)
    decreases |s|
  {
    if s != [] && IsSpace(s[0]) {
      WordsEmptyIffAllSpace(s[1..]);
      if AllSpace(s[1..]) {
        forall k | 0 <= k < |s| ensures IsSpace(s[k]) {
          if k > 0 { assert s[k] == s[1..][k - 1]; }
        }
      }
    }
  }

  lemma {:induction false} WordEndIgnoresTrailingSpace(u: string, sp: string)
    requires u != [] && !IsSpace(u[0]) && AllSpace(sp)
    ensures WordEnd(u + sp) == WordEnd(u)
    decreases |u|
  {
    assert (u + sp)[0] == u[0];
    if |u| > 1 {
      assert (u + sp)[1] == u[1];
      if !IsSpace(u[1]) {
        assert (u + sp)[1..] == u[1..] + sp;
        WordEndIgnoresTrailingSpace(u[1..], sp);
      }
    } else if sp != [] {
      assert (u + sp)[1] == sp[0];
    }
  }

  lemma {:induction false} WordsIgnoreTrailingSpace(u: string, sp: string)
    requires AllSpace(sp)
    ensures Words(u + sp) == Words(u)
    decreases |u|
  {
    if u == [] {
      assert u + sp == sp;
      WordsEmptyIffAllSpace(sp);
    } else {
      assert (u + sp)[0] == u[0];
      if IsSpace(u[0]) {
        assert (u + sp)[1..] == u[1..] + sp;
        WordsIgnoreTrailingSpace(u[1..], sp);
      } else {
        var n := WordEnd(u);
        WordEndIgnoresTrailingSpace(u, sp);
        assert (u + sp)[..n] == u[..n];
        assert (u + sp)[n..] == u[n..] + sp;
        WordsIgnoreTrailingSpace(u[n..], sp);
      }
    }
  }

  lemma {:induction false} WordsIgnoreLeadingSpace(s: string)
    ensures Words(LStrip(s)) == Words(s)
    decreases |s|
  {
    if s != [] && IsSpace(s[0]) { WordsIgnoreLeadingSpace(s[1..]); }
  }

  /** `s.strip().split()` is `s.split()`: splitting already ignores the
      whitespace that stripping removes. */
  lemma WordsIgnoreStrip(s: string)
    ensures Words(Strip(s)) == Words(s)
  {
    var l := LStrip(s);
    var r := RStrip(l);
    RStripSpec(l);
    assert l == r + l[|r|..];
    WordsIgnoreTrailingSpace(r, l[|r|..]);
    WordsIgnoreLeadingSpace(s);
  }

  /** Every character of every word of `s.split()` is a character of `s`. */
  lemma {:induction false} WordsCharsFromInput(s: string, i: nat, k: nat)
    requires i < |Words(s)| && k < |Words(s)[i]|
    ensures Words(s)[i][k] in s
    decreases |s|
  {
    if IsSpace(s[0]) {
      WordsCharsFromInput(s[1..], i, k);
      assert s[1..][IndexIn(Words(s)[i][k], s[1..])] == Words(s)[i][k];
    } else {
      var n := WordEnd(s);
      if i == 0 {
        assert Words(s)[0] == s[..n];
      } else {
        assert Words(s)[i] == Words(s[n..])[i - 1];
        WordsCharsFromInput(s[n..], i - 1, k);
        assert s[n..][IndexIn(Words(s)[i][k], s[n..])] == Words(s)[i][k];
      }
    }
  }

  /** The first position at which `c` occurs in `s` (`s.index(c)`). */
  function IndexIn(c: char, s: string): (k: nat)
    requires c in s
    ensures k < |s| && s[k] == c && c !in s[..k]
  {
    if s[0] == c then 0 else 1 + IndexIn(c, s[1..])
  }

  /** A position holding `c` with no `c` before it is the one `index` finds. */
  lemma {:induction false} IndexInAt(c: char, s: string, i: nat)
    requires i < |s| && s[i] == c && c !in s[..i]
    ensures IndexIn(c, s) == i
    decreases i
  {
    if i > 0 {
      assert s[..i][0] == s[0];
      assert s[1..][..i - 1] == s[..i][1..];
      IndexInAt(c, s[1..], i - 1);
    }
  }

  // ---------------------------------------------------------------------------
  // replace(c, ""), lower(), `in`

  /** `s.replace(c, "")`: `s` with every occurrence of `c` deleted. */
  function RemoveAll(s: string, c: char): (r: string)
    ensures |r| <= |s|
  {
    if s == [] then []
    else (if s[0] == c then [] else [s[0]]) + RemoveAll(s[1..], c)
  }

  /** `replace(c, "")` leaves no `c` and keeps every other character. */
  lemma {:induction false} RemoveAllSpec(s: string, c: char)
    ensures c !in RemoveAll(s, c)
    ensures forall x :: x in RemoveAll(s, c) <==> x in s && x != c
    decreases |s|
  {
    if s != [] {
      RemoveAllSpec(s[1..], c);
      assert s == [s[0]] + s[1..];
    }
  }

  predicate IsAsciiUpper(c: char) {
    'A' <= c <= 'Z'
  }

  function LowerChar(c: char): char {
    if IsAsciiUpper(c) then (c as int + 32) as char else c
  }

  /** `s.lower()` on ASCII letters; every other character is kept as it is. */
  function Lower(s: string): (r: string)
    ensures |r| == |s|
  {
    if s == [] then [] else [LowerChar(s[0])] + Lower(s[1..])
  }

  /** `lower()` maps each character on its own, leaves no upper-case ASCII
      letter, and changes nothing but upper-case ASCII letters, each moved to
      its lower-case counterpart. */
  lemma {:induction false} LowerChars(s: string)
    ensures forall k :: 0 <= k < |s| ==> Lower(s)[k] == LowerChar(s[k])
    ensures forall k :: 0 <= k < |s| ==> !IsAsciiUpper(Lower(s)[k])
    ensures forall k :: 0 <= k < |s| ==>
              Lower(s)[k] == s[k] || (IsAsciiUpper(s[k]) && Lower(s)[k] as int == s[k] as int + 32)
    decreases |s|
  {
    if s != [] {
      LowerChars(s[1..]);
      assert forall k :: 1 <= k < |s| ==> Lower(s)[k] == Lower(s[1..])[k - 1] && s[k] == s[1..][k - 1];
    }
  }

  /** Python's `sub in s` for strings. */
  predicate Contains(s: string, sub: string) {
    exists i | 0 <= i <= |s| - |sub| :: OccursAt(s, sub, i)
  }

  predicate OccursAt(s: string, sub: string, i: nat)
    requires i + |sub| <= |s|
  {
    s[i..i + |sub|] == sub
  }

  predicate StartsWith(s: string, prefix: string) {
    |prefix| <= |s| && s[..|prefix|] == prefix
  }

  /** `s[-n:]` for `n > 0`: the last `n` characters, or all of `s` if it is shorter. */
  function LastChars(s: string, n: nat): (r: string)
    requires n > 0
    ensures |r| == if |s| < n then |s| else n
    ensures r == s[|s| - |r|..]
  {
    if |s| <= n then s else s[|s| - n..]
  }

  // ---------------------------------------------------------------------------
  // sep.join(fields) and s.split(sep) for a one-character separator

  /** `sep.join(fields)` for a non-empty list and a one-character separator. */
  function JoinWith(fields: seq<string>, sep: char): string
    requires fields != []
  {
    if |fields| == 1 then fields[0] else fields[0] + [sep] + JoinWith(fields[1..], sep)
  }

  /** `s.split(sep)` for a one-character separator: always at least one piece. */
  function SplitOn(s: string, sep: char): (pieces: seq<string>)
    ensures pieces != []
    decreases |s|
  {
    if sep !in s then [s]
    else
      var i := IndexIn(sep, s);
      [s[..i]] + SplitOn(s[i + 1..], sep)
  }

  /** Splitting on the separator recovers the joined fields, provided no field
      contains the separator. */
  lemma {:induction false} SplitOnJoinWith(fields: seq<string>, sep: char)
    requires fields != []
    requires forall i :: 0 <= i < |fields| ==> sep !in fields[i]
    ensures SplitOn(JoinWith(fields, sep), sep) == fields
    decreases |fields|
  {
    if |fields| > 1 {
      var rest := fields[1..];
      assert JoinWith(fields, sep) == fields[0] + [sep] + JoinWith(rest, sep);
      SplitFirst(fields[0], sep, JoinWith(rest, sep));
      SplitOnJoinWith(rest, sep);
      assert fields == [fields[0]] + rest;
    }
  }

  /** Splitting `f + sep + t` on `sep`, with no `sep` in `f`, gives `f`
      and then the pieces of `t`. */
  lemma SplitFirst(f: string, sep: char, t: string)
    requires sep !in f
    ensures SplitOn(f + [sep] + t, sep) == [f] + SplitOn(t, sep)
  {
    var s := f + [sep] + t;
    assert s[..|f|] == f;
    IndexInAt(sep, s, |f|);
    assert s[|f| + 1..] == t;
  }

  // ---------------------------------------------------------------------------
  // " ".join(parts)

  /** `" ".join(parts)`. */
  function Join(parts: seq<string>): string {
    if parts == [] then ""
    else if |parts| == 1 then parts[0]
    else parts[0] + " " + Join(parts[1..])
  }

  /** Where part `i` starts in `" ".join(parts)`: the lengths of the parts
      before it, each followed by one space. */
  function Offset(parts: seq<string>, i: nat): nat
    requires i <= |parts|
  {
    if i == 0 then 0 else |parts[0]| + 1 + Offset(parts[1..], i - 1)
  }

  /** `" ".join(parts)` is as long as the parts plus one space between each
      pair of neighbours. */
  lemma {:induction false} JoinLength(parts: seq<string>)
    requires parts != []
    ensures |Join(parts)| == Offset(parts, |parts|) - 1
    decreases |parts|
  {
    if |parts| > 1 {
      JoinLength(parts[1..]);
    }
  }

  /** `" ".join(parts)` lays the parts out one after another with exactly one
      space between neighbours and nothing before the first or after the last. */
  lemma {:induction false} JoinLayout(parts: seq<string>, i: nat)
    requires i < |parts|
    ensures Offset(parts, i) + |parts[i]| <= |Join(parts)|
    ensures Join(parts)[Offset(parts, i)..Offset(parts, i) + |parts[i]|] == parts[i]
    ensures i + 1 < |parts| ==>
              Offset(parts, i) + |parts[i]| < |Join(parts)| &&
              Join(parts)[Offset(parts, i) + |parts[i]|] == ' '
    decreases |parts|
  {
    if |parts| > 1 {
      var rest := parts[1..];
      var j := Join(rest);
      assert Join(parts) == parts[0] + " " + j;
      if i == 0 {
        assert Offset(parts, 0) == 0;
        assert Join(parts)[..|parts[0]|] == parts[0];
        assert Join(parts)[|parts[0]|] == ' ';
      } else {
        JoinLayout(rest, i - 1);
        assert rest[i - 1] == parts[i];
        var o := Offset(rest, i - 1);
        assert Offset(parts, i) == |parts[0]| + 1 + o;
        JoinShift(parts[0], j, o, |parts[i]|);
      }
    }
  }

  /** Positions in `h + " " + j` past the space are positions in `j`. */
  lemma JoinShift(h: string, j: string, o: nat, n: nat)
    requires o + n <= |j|
    ensures (h + " " + j)[|h| + 1 + o..|h| + 1 + o + n] == j[o..o + n]
    ensures o + n < |j| ==> (h + " " + j)[|h| + 1 + o + n] == j[o + n]
  {
  }

  // ---------------------------------------------------------------------------
  // a < b on strings

  /** Python's `a < b` on strings: lexicographic by code point, a proper prefix
      being smaller. */
  predicate Less(a: string, b: string) {
    if a == [] then b != []
    else if b == [] then false
    else if a[0] != b[0] then a[0] < b[0]
    else Less(a[1..], b[1..])
  }

  lemma {:induction false} LessIrreflexive(a: string)
    ensures !Less(a, a)
    decreases |a|
  {
    if a != [] { LessIrreflexive(a[1..]); }
  }

  lemma {:induction false} LessTransitive(a: string, b: string, c: string)
    requires Less(a, b) && Less(b, c)
    ensures Less(a, c)
    decreases |a|
  {
    if a != [] && b != [] && c != [] && a[0] == b[0] && b[0] == c[0] {
      LessTransitive(a[1..], b[1..], c[1..]);
    }
  }

  /** Any two distinct strings are ordered one way or the other. */
  lemma {:induction false} LessTotal(a: string, b: string)
    requires a != b
    ensures Less(a, b) || Less(b, a)
    decreases |a|
  {
    if a != [] && b != [] && a[0] == b[0] {
      assert a == [a[0]] + a[1..] && b == [b[0]] + b[1..];
      LessTotal(a[1..], b[1..]);
    }
  }
}
