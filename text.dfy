/** Character and string helpers shared by the scripts: the Python `str` methods and the
    whitespace regular expressions they use, written out on sequences of characters. The
    whitespace class is the ASCII one (space, tab, line feed, carriage return, vertical tab,
    form feed). */
module Text {

  type String = seq<char>

  /** The ASCII characters matched by `\s`, removed by `str.strip()` and `String.trim()`. */
  predicate IsWs(c: char) {
    c == ' ' || c == '\t' || c == '\n' || c == '\r' || c == '\U{0B}' || c == '\U{0C}'
  }

  predicate AllWs(s: String) {
    forall i :: 0 <= i < |s| ==> IsWs(s[i])
  }

  predicate StartsWith(s: String, p: String) {
    |p| <= |s| && s[..|p|] == p
  }

  predicate EndsWith(s: String, p: String) {
    |p| <= |s| && s[|s| - |p|..] == p
  }

  /** `pat` occurs in `s` at index `i`. */
  predicate OccursAt(s: String, pat: String, i: int) {
    0 <= i && i + |pat| <= |s| && s[i..i + |pat|] == pat
  }

  /** `pat in s` in Python, `s.includes(pat)` in JavaScript. */
  predicate Contains(s: String, pat: String) {
    exists i | 0 <= i <= |s| - |pat| :: OccursAt(s, pat, i)
  }

  /** Drops leading whitespace (`lstrip()`). */
  function TrimLeft(s: String): (r: String)
    ensures |r| <= |s| && r == s[|s| - |r|..]
    ensures r == [] || !IsWs(r[0])
  {
    if s != [] && IsWs(s[0]) then TrimLeft(s[1..]) else s
  }

  /** What `TrimLeft` removes is whitespace. */
  lemma {:induction false} TrimLeftDropsWs(s: String)
    ensures AllWs(s[..|s| - |TrimLeft(s)|])
  {
    if s != [] && IsWs(s[0]) {
      TrimLeftDropsWs(s[1..]);
      var k := |s| - |TrimLeft(s)|;
      forall i | 0 <= i < k ensures IsWs(s[i]) {
        if i > 0 { assert s[i] == s[1..][..k - 1][i - 1]; }
      }
    }
  }

  /** Drops trailing whitespace (`rstrip()`). */
  function TrimRight(s: String): (r: String)
    ensures |r| <= |s| && r == s[..|r|]
    ensures r == [] || !IsWs(r[|r| - 1])
  {
    if s != [] && IsWs(s[|s| - 1]) then TrimRight(s[..|s| - 1]) else s
  }

  /** What `TrimRight` removes is whitespace. */
  lemma {:induction false} TrimRightDropsWs(s: String)
    ensures AllWs(s[|TrimRight(s)|..])
  {
    if s != [] && IsWs(s[|s| - 1]) {
      var p := s[..|s| - 1];
      TrimRightDropsWs(p);
      var k := |TrimRight(s)|;
      forall i | k <= i < |s| ensures IsWs(s[i]) {
        if i < |s| - 1 { assert s[i] == p[k..][i - k]; }
      }
      assert forall i :: 0 <= i < |s| - k ==> s[k..][i] == s[k + i];
    }
  }

  /** Python `str.strip()` and JavaScript `String.prototype.trim()`. */
  function Strip(s: String): (r: String)
    ensures |r| <= |s|
    ensures r == [] || (!IsWs(r[0]) && !IsWs(r[|r| - 1]))
  {
    TrimRight(TrimLeft(s))
  }

  /** Every whitespace character is a plain space and no two spaces are adjacent. */
  predicate SingleSpaced(s: String) {
    && (forall i :: 0 <= i < |s| && IsWs(s[i]) ==> s[i] == ' ')
    && (forall i :: 0 <= i < |s| - 1 && s[i] == ' ' ==> s[i + 1] != ' ')
  }

  /** The substitution `re.sub(r'\s+', ' ', s)` / `s.replace(/\s+/g, ' ')`: every maximal run
      of whitespace becomes one space. */
  function Collapse(s: String): (r: String)
    ensures |r| <= |s|
    ensures r == [] <==> s == []
    ensures s != [] ==> r[0] == (if IsWs(s[0]) then ' ' else s[0])
    decreases |s|
  {
    if s == [] then []
    else if IsWs(s[0]) then [' '] + Collapse(TrimLeft(s))
    else [s[0]] + Collapse(s[1..])
  }

  /** The last character of the collapsed text is the last character of the text, or a space
      when that was whitespace. */
  lemma {:induction false} CollapseLast(s: String)
    requires s != []
    ensures Collapse(s)[|Collapse(s)| - 1] == if IsWs(s[|s| - 1]) then ' ' else s[|s| - 1]
    decreases |s|
  {
    if IsWs(s[0]) {
      var t := TrimLeft(s);
      if t == [] {
        CollapseLastAllWs(s);
      } else {
        CollapseLast(t);
        CollapseLastWs(s);
      }
    } else if |s| > 1 {
      CollapseLast(s[1..]);
      LastOfCons(s[0], Collapse(s[1..]));
    }
  }

  lemma CollapseLastAllWs(s: String)
    requires s != [] && IsWs(s[0]) && TrimLeft(s) == []
    ensures Collapse(s)[|Collapse(s)| - 1] == if IsWs(s[|s| - 1]) then ' ' else s[|s| - 1]
  {
    TrimLeftDropsWs(s);
    assert s[..|s|][|s| - 1] == s[|s| - 1];
  }

  lemma CollapseLastWs(s: String)
    requires s != [] && IsWs(s[0]) && TrimLeft(s) != []
    requires var t := TrimLeft(s);
             Collapse(t)[|Collapse(t)| - 1] == if IsWs(t[|t| - 1]) then ' ' else t[|t| - 1]
    ensures Collapse(s)[|Collapse(s)| - 1] == if IsWs(s[|s| - 1]) then ' ' else s[|s| - 1]
  {
    var t := TrimLeft(s);
    assert t[|t| - 1] == s[|s| - 1];
    LastOfCons(' ', Collapse(t));
  }

  lemma LastOfCons(c: char, r: String)
    requires r != []
    ensures ([c] + r)[|[c] + r| - 1] == r[|r| - 1]
  {
  }

  /** The result of collapsing has only plain spaces as whitespace, never two in a row. */
  lemma {:induction false} CollapseSingleSpaced(s: String)
    ensures SingleSpaced(Collapse(s))
    decreases |s|
  {
    if s == [] {
    } else if IsWs(s[0]) {
      var t := TrimLeft(s);
      CollapseSingleSpaced(t);
      SingleSpacedCons(' ', Collapse(t));
    } else {
      CollapseSingleSpaced(s[1..]);
      SingleSpacedCons(s[0], Collapse(s[1..]));
    }
  }

  lemma SingleSpacedCons(c: char, r: String)
    requires SingleSpaced(r)
    requires IsWs(c) ==> c == ' '
    requires c == ' ' && r != [] ==> r[0] != ' '
    ensures SingleSpaced([c] + r)
  {
    var s := [c] + r;
    forall i | 0 <= i < |s| && IsWs(s[i]) ensures s[i] == ' ' {
      if i > 0 { assert s[i] == r[i - 1]; }
    }
    forall i | 0 <= i < |s| - 1 && s[i] == ' ' ensures s[i + 1] != ' ' {
      if i > 0 { assert s[i] == r[i - 1] && s[i + 1] == r[i]; }
    }
  }

  /** The non-whitespace characters of `s`, in order. */
  function NonWs(s: String): String {
    if s == [] then [] else (if IsWs(s[0]) then [] else [s[0]]) + NonWs(s[1..])
  }

  lemma {:induction false} NonWsConcat(a: String, b: String)
    ensures NonWs(a + b) == NonWs(a) + NonWs(b)
  {
    if a != [] {
      var h := if IsWs(a[0]) then [] else [a[0]];
      assert (a + b)[0] == a[0];
      assert (a + b)[1..] == a[1..] + b;
      NonWsConcat(a[1..], b);
      calc {
        NonWs(a + b);
        h + NonWs(a[1..] + b);
        h + (NonWs(a[1..]) + NonWs(b));
        (h + NonWs(a[1..])) + NonWs(b);
        NonWs(a) + NonWs(b);
      }
    } else {
      assert a + b == b;
    }
  }

  lemma {:induction false} NonWsOfWs(w: String)
    requires AllWs(w)
    ensures NonWs(w) == []
  {
    if w != [] {
      assert AllWs(w[1..]) by {
        forall i | 0 <= i < |w| - 1 ensures IsWs(w[1..][i]) { assert w[1..][i] == w[i + 1]; }
      }
      NonWsOfWs(w[1..]);
    }
  }

  lemma NonWsTrimLeft(s: String)
    ensures NonWs(TrimLeft(s)) == NonWs(s)
  {
    var t := TrimLeft(s);
    var k := |s| - |t|;
    assert s == s[..k] + t;
    TrimLeftDropsWs(s);
    NonWsConcat(s[..k], t);
    NonWsOfWs(s[..k]);
  }

  lemma NonWsTrimRight(s: String)
    ensures NonWs(TrimRight(s)) == NonWs(s)
  {
    var t := TrimRight(s);
    assert s == t + s[|t|..];
    TrimRightDropsWs(s);
    NonWsConcat(t, s[|t|..]);
    NonWsOfWs(s[|t|..]);
  }

  /** Trimming only ever removes whitespace. */
  lemma NonWsStrip(s: String)
    ensures NonWs(Strip(s)) == NonWs(s)
  {
    NonWsTrimLeft(s);
    NonWsTrimRight(TrimLeft(s));
  }

  lemma {:induction false} TrimRightKeepsFirst(t: String)
    requires t != [] && !IsWs(t[0])
    ensures TrimRight(t) != []
    decreases |t|
  {
    if |t| > 1 && IsWs(t[|t| - 1]) {
      assert t[..|t| - 1][0] == t[0];
      TrimRightKeepsFirst(t[..|t| - 1]);
    }
  }

  /** Trimming leaves nothing exactly when the text is all whitespace. */
  lemma StripEmpty(s: String)
    ensures Strip(s) == [] <==> AllWs(s)
  {
    var t := TrimLeft(s);
    TrimLeftDropsWs(s);
    if t == [] {
      assert s[..|s|] == s;
    } else {
      assert t[0] == s[|s| - |t|];
      TrimRightKeepsFirst(t);
    }
  }

  /** Collapsing whitespace keeps every other character, in order. */
  lemma {:induction false} CollapseKeepsNonWs(s: String)
    ensures NonWs(Collapse(s)) == NonWs(s)
    decreases |s|
  {
    if s == [] {
    } else if IsWs(s[0]) {
      var t := TrimLeft(s);
      CollapseKeepsNonWs(t);
      NonWsConcat([' '], Collapse(t));
      NonWsTrimLeft(s);
    } else {
      CollapseKeepsNonWs(s[1..]);
      NonWsConcat([s[0]], Collapse(s[1..]));
    }
  }

  /** Leading whitespace is dropped from the front only, when `a` ends in a non-whitespace
      character. */
  lemma {:induction false} TrimLeftConcat(a: String, b: String)
    requires a != [] && !IsWs(a[|a| - 1])
    ensures TrimLeft(a + b) == TrimLeft(a) + b
    decreases |a|
  {
    assert (a + b)[0] == a[0];
    if IsWs(a[0]) {
      assert |a| > 1;
      assert (a + b)[1..] == a[1..] + b;
      TrimLeftConcat(a[1..], b);
    }
  }

  /** `Collapse` distributes over a split point just after a non-whitespace character. */
  lemma {:induction false} CollapseConcat(a: String, b: String)
    requires a != [] && !IsWs(a[|a| - 1])
    ensures Collapse(a + b) == Collapse(a) + Collapse(b)
    decreases |a|, 1
  {
    if IsWs(a[0]) {
      CollapseConcatWs(a, b);
    } else if |a| == 1 {
      CollapseConcatOne(a, b);
    } else {
      CollapseConcatChar(a, b);
    }
  }

  lemma CollapseConcatOne(a: String, b: String)
    requires |a| == 1 && !IsWs(a[0])
    ensures Collapse(a + b) == Collapse(a) + Collapse(b)
  {
    assert (a + b)[0] == a[0] && (a + b)[1..] == b;
    assert a[1..] == [];
  }

  lemma {:induction false} CollapseConcatWs(a: String, b: String)
    requires a != [] && !IsWs(a[|a| - 1]) && IsWs(a[0])
    ensures Collapse(a + b) == Collapse(a) + Collapse(b)
    decreases |a|, 0
  {
    var t := TrimLeft(a);
    var w := a[..|a| - |t|];
    LeadingWsSplit(a);
    CollapseWsPrefixAssoc(w, t, b);
    CollapseWsPrefix(w, t);
    CollapseConcat(t, b);
    AppendAssoc([' '], Collapse(t), Collapse(b));
  }

  /** Concatenation is associative; stated once so that proofs about strings can cite it
      instead of rediscovering it element by element. */
  lemma AppendAssoc<T>(x: seq<T>, y: seq<T>, z: seq<T>)
    ensures x + (y + z) == (x + y) + z
  {
  }

  /** A string that starts with whitespace and ends otherwise is a run of whitespace followed
      by a part that starts and ends otherwise. */
  lemma LeadingWsSplit(a: String)
    requires a != [] && !IsWs(a[|a| - 1]) && IsWs(a[0])
    ensures var t := TrimLeft(a);
            var w := a[..|a| - |t|];
            && AllWs(w) && w != [] && a == w + t
            && t != [] && !IsWs(t[0]) && !IsWs(t[|t| - 1]) && |t| < |a|
  {
    var t := TrimLeft(a);
    var w := a[..|a| - |t|];
    TrimLeftKeepsLast(a);
    var k := |a| - |t|;
    assert t == a[k..];
    assert a[..k] + a[k..] == a;
    assert t[|t| - 1] == a[|a| - 1];
    assert k > 0;
    TrimLeftDropsWs(a);
  }

  lemma CollapseWsPrefixAssoc(w: String, t: String, b: String)
    requires AllWs(w) && w != [] && t != [] && !IsWs(t[0])
    ensures Collapse((w + t) + b) == [' '] + Collapse(t + b)
  {
    assert (w + t) + b == w + (t + b);
    assert (t + b)[0] == t[0];
    CollapseWsPrefix(w, t + b);
  }

  lemma {:induction false} CollapseConcatChar(a: String, b: String)
    requires |a| > 1 && !IsWs(a[|a| - 1]) && !IsWs(a[0])
    ensures Collapse(a + b) == Collapse(a) + Collapse(b)
    decreases |a|, 0
  {
    var ab := a + b;
    var a' := a[1..];
    assert a'[|a'| - 1] == a[|a| - 1];
    assert Collapse(ab) == [a[0]] + Collapse(a' + b) by {
      assert ab[0] == a[0];
      assert ab[1..] == a' + b;
      CollapseCharStep(ab);
    }
    assert Collapse(a) == [a[0]] + Collapse(a') by {
      CollapseCharStep(a);
    }
    CollapseConcat(a', b);
    AppendAssoc([a[0]], Collapse(a'), Collapse(b));
  }

  lemma CollapseWsStep(s: String)
    requires s != [] && IsWs(s[0])
    ensures Collapse(s) == [' '] + Collapse(TrimLeft(s))
  {
  }

  lemma CollapseCharStep(s: String)
    requires s != [] && !IsWs(s[0])
    ensures Collapse(s) == [s[0]] + Collapse(s[1..])
  {
  }

  /** A string that ends in a non-whitespace character keeps it under `TrimLeft`. */
  lemma {:induction false} TrimLeftKeepsLast(a: String)
    requires a != [] && !IsWs(a[|a| - 1])
    ensures TrimLeft(a) != []
    decreases |a|
  {
    if IsWs(a[0]) {
      assert |a| > 1;
      assert a[1..][|a| - 2] == a[|a| - 1];
      TrimLeftKeepsLast(a[1..]);
    }
  }

  /** `TrimLeft` removes a string made only of whitespace entirely. */
  lemma {:induction false} TrimLeftOfWs(w: String)
    requires AllWs(w)
    ensures TrimLeft(w) == []
  {
    if w != [] {
      assert AllWs(w[1..]) by {
        forall i | 0 <= i < |w| - 1 ensures IsWs(w[1..][i]) { assert w[1..][i] == w[i + 1]; }
      }
      TrimLeftOfWs(w[1..]);
    }
  }

  /** Collapsing a non-empty string of only whitespace gives one space. */
  lemma CollapseOfWs(w: String)
    requires AllWs(w) && w != []
    ensures Collapse(w) == [' ']
  {
    TrimLeftOfWs(w);
  }

  /** Trimming both ends after collapsing: leading side. */
  lemma TrimLeftCollapse(s: String)
    ensures TrimLeft(Collapse(s)) == Collapse(TrimLeft(s))
  {
    if s != [] && IsWs(s[0]) {
      var t := TrimLeft(s);
      var ct := Collapse(t);
      assert Collapse(s) == [' '] + ct;
      assert ([' '] + ct)[1..] == ct;
      assert TrimLeft([' '] + ct) == TrimLeft(ct);
      assert TrimLeft(t) == t;
    }
  }

  /** Trimming both ends after collapsing: trailing side. */
  lemma TrimRightCollapse(s: String)
    ensures TrimRight(Collapse(s)) == Collapse(TrimRight(s))
  {
    var m := TrimRight(s);
    var tail := s[|m|..];
    assert s == m + tail && AllWs(tail) by {
      TrimRightDropsWs(s);
    }
    if tail == [] {
      if s != [] {
        TrimRightCollapseKept(s);
      }
    } else if m == [] {
      CollapseOfWs(s);
      assert TrimRight([' ']) == [];
    } else {
      TrimRightCollapseTail(m, tail);
    }
  }

  /** Collapsing keeps a last character that is not whitespace. */
  lemma TrimRightCollapseKept(s: String)
    requires s != [] && !IsWs(s[|s| - 1])
    ensures TrimRight(Collapse(s)) == Collapse(s)
  {
    CollapseLast(s);
    TrimRightKeeps(Collapse(s));
  }

  /** Trailing whitespace collapses to one space, which `TrimRight` removes again. */
  lemma TrimRightCollapseTail(m: String, tail: String)
    requires m != [] && !IsWs(m[|m| - 1]) && tail != [] && AllWs(tail)
    ensures TrimRight(Collapse(m + tail)) == Collapse(m)
  {
    var cm := Collapse(m);
    assert Collapse(m + tail) == cm + [' '] by {
      CollapseConcat(m, tail);
      CollapseOfWs(tail);
    }
    TrimRightSpace(cm);
    TrimRightCollapseKept(m);
  }

  lemma TrimRightKeeps(s: String)
    requires s != [] && !IsWs(s[|s| - 1])
    ensures TrimRight(s) == s
  {
  }

  lemma TrimRightSpace(s: String)
    ensures TrimRight(s + [' ']) == TrimRight(s)
  {
    assert (s + [' '])[..|s|] == s;
  }

  /** Trailing whitespace after a non-whitespace character is what `TrimRight` removes. */
  lemma {:induction false} TrimRightWsSuffix(s: String, v: String)
    requires (s == [] || !IsWs(s[|s| - 1])) && AllWs(v)
    ensures TrimRight(s + v) == s
    decreases |v|
  {
    if v == [] {
      assert s + v == s;
    } else {
      var sv := s + v;
      var v' := v[..|v| - 1];
      assert sv[|sv| - 1] == v[|v| - 1];
      assert sv[..|sv| - 1] == s + v';
      assert AllWs(v') by {
        forall i | 0 <= i < |v'| ensures IsWs(v'[i]) { assert v'[i] == v[i]; }
      }
      TrimRightWsSuffix(s, v');
    }
  }

  /** Trimming and collapsing commute: `s.replace(/\s+/g, ' ').trim()` equals
      `re.sub(r'\s+', ' ', s.strip())`. */
  lemma StripCollapse(s: String)
    ensures Strip(Collapse(s)) == Collapse(Strip(s))
  {
    TrimLeftCollapse(s);
    TrimRightCollapse(TrimLeft(s));
  }

  lemma SingleSpacedTail(s: String)
    requires SingleSpaced(s) && s != []
    ensures SingleSpaced(s[1..])
  {
    var t := s[1..];
    assert forall i :: 0 <= i < |t| ==> t[i] == s[i + 1];
  }

  /** Text that is already single-spaced is left as it is by collapsing. */
  lemma {:induction false} CollapseSingleSpacedFixed(s: String)
    requires SingleSpaced(s)
    ensures Collapse(s) == s
    decreases |s|
  {
    if s != [] {
      var t := s[1..];
      SingleSpacedHead(s);
      CollapseSingleSpacedFixed(t);
      if IsWs(s[0]) {
        CollapseWsStep(s);
      } else {
        CollapseCharStep(s);
      }
      assert [s[0]] + t == s;
    }
  }

  /** The first step of collapsing single-spaced text: a leading space is followed by a
      character that is not whitespace, so `TrimLeft` removes just that space. */
  lemma SingleSpacedHead(s: String)
    requires SingleSpaced(s) && s != []
    ensures SingleSpaced(s[1..])
    ensures IsWs(s[0]) ==> s[0] == ' ' && TrimLeft(s) == s[1..]
  {
    SingleSpacedTail(s);
    var t := s[1..];
    if IsWs(s[0]) && t != [] {
      assert t[0] == s[1] && s[1] != ' ';
    }
  }

  /** Collapsing twice is collapsing once. */
  lemma CollapseIdempotent(s: String)
    ensures Collapse(Collapse(s)) == Collapse(s)
  {
    CollapseSingleSpaced(s);
    CollapseSingleSpacedFixed(Collapse(s));
  }

  lemma {:induction false} TrimLeftWsPrefix(w: String, b: String)
    requires AllWs(w) && (b == [] || !IsWs(b[0]))
    ensures TrimLeft(w + b) == b
  {
    if w == [] {
      assert w + b == b;
    } else {
      assert (w + b)[1..] == w[1..] + b;
      assert AllWs(w[1..]) by {
        forall i | 0 <= i < |w| - 1 ensures IsWs(w[1..][i]) { assert w[1..][i] == w[i + 1]; }
      }
      TrimLeftWsPrefix(w[1..], b);
    }
  }

  /** A run of whitespace in front of a non-whitespace character becomes one space. */
  lemma CollapseWsPrefix(w: String, b: String)
    requires AllWs(w) && w != [] && (b == [] || !IsWs(b[0]))
    ensures Collapse(w + b) == [' '] + Collapse(b)
  {
    assert (w + b)[0] == w[0];
    TrimLeftWsPrefix(w, b);
  }

  /** Python `str.replace(pat, rep)`: every non-overlapping occurrence of `pat`, scanning left
      to right, is replaced; an empty `pat` inserts `rep` around every character. */
  function ReplaceAll(s: String, pat: String, rep: String): String
    decreases |s|
  {
    if pat == [] then InsertAround(s, rep)
    else if |s| < |pat| then s
    else if s[..|pat|] == pat then rep + ReplaceAll(s[|pat|..], pat, rep)
    else [s[0]] + ReplaceAll(s[1..], pat, rep)
  }

  /** Replacing a character by itself changes nothing. */
  lemma {:induction false} ReplaceSelf(s: String, c: char)
    ensures ReplaceAll(s, [c], [c]) == s
    decreases |s|
  {
    if s != [] {
      ReplaceSelf(s[1..], c);
      if s[..1] == [c] {
        assert [c] + s[1..] == s;
      }
    }
  }

  /** What Python's `s.replace('', rep)` gives: `rep`, then each character followed by `rep`. */
  function InsertAround(s: String, rep: String): String {
    if s == [] then rep else InsertAround(s[..|s| - 1], rep) + [s[|s| - 1]] + rep
  }

  /** One copy of `rep` around each character: `|s| + 1` copies in all. */
  lemma {:induction false} InsertAroundLength(s: String, rep: String)
    ensures |InsertAround(s, rep)| == |s| + (|s| + 1) * |rep|
    decreases |s|
  {
    if s != [] {
      InsertAroundLength(s[..|s| - 1], rep);
    }
  }

  /** A string without an occurrence of a non-empty pattern is left as it is. */
  lemma {:induction false} ReplaceAbsent(s: String, pat: String, rep: String)
    requires pat != [] && !Contains(s, pat)
    ensures ReplaceAll(s, pat, rep) == s
    decreases |s|
  {
    if |s| >= |pat| {
      ContainsShift(s, pat);
      assert s[0..|pat|] == s[..|pat|];
      ReplaceAbsent(s[1..], pat, rep);
    }
  }

  /** A replacement that cannot reach across the seam works on the two parts on their own. */
  lemma {:induction false} ReplaceSplit(a: String, b: String, pat: String, rep: String)
    requires pat != [] && b != [] && b[0] !in pat
    ensures ReplaceAll(a + b, pat, rep) == ReplaceAll(a, pat, rep) + ReplaceAll(b, pat, rep)
    decreases |a|
  {
    if a == [] {
      assert a + b == b;
    } else if |a + b| < |pat| {
      ReplaceSplitShort(a, b, pat, rep);
    } else if (a + b)[..|pat|] == pat {
      ReplaceSplitFront(a, b, pat);
      ReplaceSplit(a[|pat|..], b, pat, rep);
      ReplaceSplitMatch(a, b, pat, rep);
    } else {
      assert (a + b)[1..] == a[1..] + b;
      ReplaceSplit(a[1..], b, pat, rep);
      ReplaceSplitStep(a, b, pat, rep);
    }
  }

  /** Text shorter than `pat` is copied, and so are both of its parts. */
  lemma ReplaceSplitShort(a: String, b: String, pat: String, rep: String)
    requires |a + b| < |pat|
    ensures ReplaceAll(a + b, pat, rep) == ReplaceAll(a, pat, rep) + ReplaceAll(b, pat, rep)
  {
    assert ReplaceAll(a, pat, rep) == a;
    assert ReplaceAll(b, pat, rep) == b;
  }

  /** A copy of `pat` at the front of `a + b` is replaced as it would be in `a`. */
  lemma ReplaceSplitMatch(a: String, b: String, pat: String, rep: String)
    requires pat != [] && |a| >= |pat| && a[..|pat|] == pat
    requires |a + b| >= |pat| && (a + b)[..|pat|] == pat && (a + b)[|pat|..] == a[|pat|..] + b
    requires ReplaceAll(a[|pat|..] + b, pat, rep) == ReplaceAll(a[|pat|..], pat, rep) + ReplaceAll(b, pat, rep)
    ensures ReplaceAll(a + b, pat, rep) == ReplaceAll(a, pat, rep) + ReplaceAll(b, pat, rep)
  {
    AppendAssoc(rep, ReplaceAll(a[|pat|..], pat, rep), ReplaceAll(b, pat, rep));
  }

  /** A copy of `pat` at the front of `a + b` lies wholly in `a`. */
  lemma ReplaceSplitFront(a: String, b: String, pat: String)
    requires pat != [] && b != [] && b[0] !in pat
    requires |a + b| >= |pat| && (a + b)[..|pat|] == pat
    ensures |a| >= |pat| && a[..|pat|] == pat && (a + b)[|pat|..] == a[|pat|..] + b
  {
    assert b[0] == (a + b)[|a|];
    assert a[..|pat|] == pat;
  }

  lemma ReplaceSplitStep(a: String, b: String, pat: String, rep: String)
    requires pat != [] && a != [] && |a + b| >= |pat| && (a + b)[..|pat|] != pat
    requires ReplaceAll(a[1..] + b, pat, rep) == ReplaceAll(a[1..], pat, rep) + ReplaceAll(b, pat, rep)
    ensures ReplaceAll(a + b, pat, rep) == ReplaceAll(a, pat, rep) + ReplaceAll(b, pat, rep)
  {
    ReplaceFront(a, b, pat, rep);
    ReplaceHead(a, pat, rep);
    AppendAssoc([a[0]], ReplaceAll(a[1..], pat, rep), ReplaceAll(b, pat, rep));
  }

  /** No copy of `pat` at the front of `a + b`: its first character, from `a`, is kept. */
  lemma ReplaceFront(a: String, b: String, pat: String, rep: String)
    requires pat != [] && a != [] && |a + b| >= |pat| && (a + b)[..|pat|] != pat
    ensures ReplaceAll(a + b, pat, rep) == [a[0]] + ReplaceAll(a[1..] + b, pat, rep)
    ensures |a| >= |pat| ==> a[..|pat|] != pat
  {
    assert (a + b)[1..] == a[1..] + b;
    if |a| >= |pat| {
      assert a[..|pat|] == (a + b)[..|pat|];
    }
  }

  /** A replacement on a non-empty `a` whose front is no copy of `pat` keeps `a[0]`. */
  lemma ReplaceHead(a: String, pat: String, rep: String)
    requires pat != [] && a != [] && (|a| >= |pat| ==> a[..|pat|] != pat)
    ensures ReplaceAll(a, pat, rep) == [a[0]] + ReplaceAll(a[1..], pat, rep)
  {
    if |a| < |pat| {
      assert ReplaceAll(a[1..], pat, rep) == a[1..];
      assert [a[0]] + a[1..] == a;
    }
  }

  /** Text without the first character of `pat` is copied as it is. */
  lemma {:induction false} ReplaceSkips(x: String, t: String, pat: String, rep: String)
    requires pat != [] && pat[0] !in x
    ensures ReplaceAll(x + t, pat, rep) == x + ReplaceAll(t, pat, rep)
    decreases |x|
  {
    if x != [] {
      assert (x + t)[0] == x[0];
      assert (x + t)[1..] == x[1..] + t;
      ReplaceSkips(x[1..], t, pat, rep);
      if |x + t| < |pat| {
        assert ReplaceAll(t, pat, rep) == t;
      } else {
        assert (x + t)[..|pat|] != pat;
      }
      AppendAssoc([x[0]], x[1..], ReplaceAll(t, pat, rep));
      assert [x[0]] + x[1..] == x;
    } else {
      assert x + t == t;
    }
  }

  /** An occurrence of `x` survives a replacement that can neither start inside it nor run
      into it. */
  lemma ReplaceKeeps(s: String, pat: String, rep: String, x: String)
    requires pat != [] && x != [] && x[0] !in pat && pat[0] !in x && Contains(s, x)
    ensures Contains(ReplaceAll(s, pat, rep), x)
  {
    var i :| 0 <= i <= |s| - |x| && OccursAt(s, x, i);
    var a, c := s[..i], s[i + |x|..];
    assert s == a + (x + c);
    ReplaceSplit(a, x + c, pat, rep);
    ReplaceSkips(x, c, pat, rep);
    AppendAssoc(ReplaceAll(a, pat, rep), x, ReplaceAll(c, pat, rep));
    ContainsMiddle(ReplaceAll(a, pat, rep), x, ReplaceAll(c, pat, rep));
  }

  /** When `pat` occurs, at least one copy of `rep` is put in. */
  lemma {:induction false} ReplaceIntroduces(s: String, pat: String, rep: String)
    requires pat != [] && Contains(s, pat)
    ensures Contains(ReplaceAll(s, pat, rep), rep)
    decreases |s|
  {
    if s[..|pat|] == pat {
      var t := ReplaceAll(s[|pat|..], pat, rep);
      assert ReplaceAll(s, pat, rep) == rep + t;
      assert (rep + t)[0..|rep|] == rep;
      assert OccursAt(rep + t, rep, 0);
    } else {
      ContainsShift(s, pat);
      assert s[0..|pat|] == s[..|pat|];
      ReplaceIntroduces(s[1..], pat, rep);
      ContainsCons(s[0], ReplaceAll(s[1..], pat, rep), rep);
    }
  }

  lemma ContainsCons(c: char, t: String, x: String)
    requires Contains(t, x)
    ensures Contains([c] + t, x)
  {
    var i :| 0 <= i <= |t| - |x| && OccursAt(t, x, i);
    assert ([c] + t)[i + 1..i + 1 + |x|] == t[i..i + |x|];
    assert OccursAt([c] + t, x, i + 1);
  }

  /** What occurs in a part occurs in the whole. */
  lemma ContainsTrans(s: String, u: String, x: String)
    requires Contains(s, u) && Contains(u, x)
    ensures Contains(s, x)
  {
    var i :| 0 <= i <= |s| - |u| && OccursAt(s, u, i);
    assert s == s[..i] + u + s[i + |u|..];
    ContainsWithin(s[..i], u, s[i + |u|..], x);
  }

  lemma ContainsMiddle(a: String, x: String, b: String)
    ensures Contains(a + x + b, x)
  {
    assert (a + x + b)[|a|..|a| + |x|] == x;
    assert OccursAt(a + x + b, x, |a|);
  }

  /** What occurs in `u` occurs in any text around it. */
  lemma ContainsWithin(a: String, u: String, b: String, x: String)
    requires Contains(u, x)
    ensures Contains(a + u + b, x)
  {
    var i :| 0 <= i <= |u| - |x| && OccursAt(u, x, i);
    assert (a + u + b)[|a| + i..|a| + i + |x|] == u[i..i + |x|];
    assert OccursAt(a + u + b, x, |a| + i);
  }

  /** `pat` occurs in a non-empty `s` exactly when it occurs at the front or in the tail. */
  lemma ContainsShift(s: String, pat: String)
    requires s != []
    ensures Contains(s, pat) <==> OccursAt(s, pat, 0) || Contains(s[1..], pat)
  {
    if Contains(s, pat) && !OccursAt(s, pat, 0) {
      var i :| 0 <= i <= |s| - |pat| && OccursAt(s, pat, i);
      assert s[1..][i - 1..i - 1 + |pat|] == s[i..i + |pat|];
      assert OccursAt(s[1..], pat, i - 1);
    }
    if Contains(s[1..], pat) {
      var i :| 0 <= i <= |s[1..]| - |pat| && OccursAt(s[1..], pat, i);
      assert s[1..][i..i + |pat|] == s[i + 1..i + 1 + |pat|];
      assert OccursAt(s, pat, i + 1);
    }
  }

  /** Removing every occurrence: the result is shorter by the length of the removed copies. */
  lemma {:induction false} RemoveAllLength(s: String, pat: String)
    requires pat != []
    ensures |ReplaceAll(s, pat, [])| == |s| - |pat| * CountOcc(s, pat)
    decreases |s|
  {
    if |s| >= |pat| {
      if s[..|pat|] == pat {
        var t := s[|pat|..];
        RemoveAllLength(t, pat);
        var c := CountOcc(t, pat);
        assert CountOcc(s, pat) == 1 + c;
        assert |ReplaceAll(s, pat, [])| == |ReplaceAll(t, pat, [])| by {
          assert ReplaceAll(s, pat, []) == [] + ReplaceAll(t, pat, []);
        }
        MulStep(|pat|, c);
      } else {
        RemoveAllLength(s[1..], pat);
        assert CountOcc(s, pat) == CountOcc(s[1..], pat);
        assert |ReplaceAll(s, pat, [])| == 1 + |ReplaceAll(s[1..], pat, [])| by {
          assert ReplaceAll(s, pat, []) == [s[0]] + ReplaceAll(s[1..], pat, []);
        }
      }
    }
  }

  lemma MulStep(p: int, c: int)
    ensures p * (1 + c) == p + p * c
  {
  }

  /** A string that starts with `pat`, followed by text free of `pat`, loses just that prefix. */
  lemma RemovePrefixOccurrence(pat: String, t: String)
    requires pat != [] && !Contains(t, pat)
    ensures ReplaceAll(pat + t, pat, []) == t
  {
    assert (pat + t)[..|pat|] == pat;
    assert (pat + t)[|pat|..] == t;
    ReplaceAbsent(t, pat, []);
  }

  /** Python `str.count(pat)`: non-overlapping occurrences, scanning left to right. */
  function CountOcc(s: String, pat: String): nat
    decreases |s|
  {
    if pat == [] then |s| + 1
    else if |s| < |pat| then 0
    else if s[..|pat|] == pat then 1 + CountOcc(s[|pat|..], pat)
    else CountOcc(s[1..], pat)
  }

  /** `s.count(pat) > 0` exactly when `pat in s`. */
  lemma {:induction false} CountOccPositive(s: String, pat: String)
    ensures CountOcc(s, pat) > 0 <==> Contains(s, pat)
    decreases |s|
  {
    if pat == [] {
      assert OccursAt(s, pat, 0);
    } else if |s| < |pat| {
    } else if s[..|pat|] == pat {
      assert OccursAt(s, pat, 0);
    } else {
      CountOccPositive(s[1..], pat);
      ContainsShift(s, pat);
    }
  }

  /** A character that does not occur in `pat` separates the counts of the two sides. */
  lemma {:induction false} CountOccSplit(a: String, x: char, b: String, pat: String)
    requires pat != [] && x !in pat
    ensures CountOcc(a + [x] + b, pat) == CountOcc(a, pat) + CountOcc(b, pat)
    decreases |a|
  {
    var s := a + [x] + b;
    if |a| < |pat| <= |s| {
      assert s[..|pat|][|a|] == x;
    }
    if |s| < |pat| {
      CountOccShort(a, pat);
      CountOccShort(b, pat);
    } else if s[..|pat|] == pat {
      assert |a| >= |pat|;
      assert a[..|pat|] == pat;
      assert s[|pat|..] == a[|pat|..] + [x] + b;
      CountOccSplit(a[|pat|..], x, b, pat);
    } else if a == [] {
      assert s[1..] == b;
    } else {
      assert s[1..] == a[1..] + [x] + b;
      CountOccSplit(a[1..], x, b, pat);
      if |a| >= |pat| {
        assert a[..|pat|] == s[..|pat|];
      } else {
        CountOccShort(a, pat);
        CountOccShort(a[1..], pat);
      }
    }
  }

  lemma CountOccShort(s: String, pat: String)
    requires pat != [] && |s| < |pat|
    ensures CountOcc(s, pat) == 0
  {
  }

  /** `pat` followed by more text: one occurrence, then the occurrences in the rest. */
  lemma CountOccPrefix(pat: String, b: String)
    requires pat != []
    ensures CountOcc(pat + b, pat) == 1 + CountOcc(b, pat)
  {
    assert (pat + b)[..|pat|] == pat && (pat + b)[|pat|..] == b;
  }

  /** No occurrence when some character of `pat` is missing from `s`. */
  lemma {:induction false} CountOccMissing(s: String, pat: String, j: nat)
    requires j < |pat| && pat[j] !in s
    ensures CountOcc(s, pat) == 0
    decreases |s|
  {
    if |s| >= |pat| {
      assert s[..|pat|][j] == s[j];
      CountOccMissing(s[1..], pat, j);
    }
  }

  /** No occurrence when the first character of `pat` is missing from every place an
      occurrence could start. */
  lemma {:induction false} CountOccNone(s: String, pat: String)
    requires pat != [] && |pat| <= |s| && pat[0] !in s[..|s| - |pat| + 1]
    ensures CountOcc(s, pat) == 0
    decreases |s|
  {
    assert s[..|s| - |pat| + 1][0] == s[0] == s[..|pat|][0];
    if |s[1..]| >= |pat| {
      assert s[1..][..|s[1..]| - |pat| + 1] == s[..|s| - |pat| + 1][1..];
      CountOccNone(s[1..], pat);
    }
  }

  /** Counts add up across a boundary no occurrence can straddle: the last character of `a`
      or the first of `b` is not in `pat`. */
  lemma CountOccAppend(a: String, b: String, pat: String)
    requires pat != []
    requires (a != [] && a[|a| - 1] !in pat) || (b != [] && b[0] !in pat)
    ensures CountOcc(a + b, pat) == CountOcc(a, pat) + CountOcc(b, pat)
  {
    var e: String := [];
    if a != [] && a[|a| - 1] !in pat {
      var a', x := a[..|a| - 1], a[|a| - 1];
      assert a' + [x] + b == a + b;
      assert a' + [x] + e == a;
      CountOccSplit(a', x, b, pat);
      CountOccSplit(a', x, e, pat);
    } else {
      var x, b' := b[0], b[1..];
      assert a + [x] + b' == a + b;
      assert e + [x] + b' == b;
      CountOccSplit(a, x, b', pat);
      CountOccSplit(e, x, b', pat);
    }
  }

  /** In `a + t + b`, `pat` occurs only inside `t` when one of its characters is in neither
      `a` nor `b` and no occurrence can straddle either boundary. */
  lemma CountOccFramed(a: String, t: String, b: String, pat: String, j: nat)
    requires j < |pat| && pat[j] !in a && pat[j] !in b
    requires a != [] && a[|a| - 1] !in pat && b != [] && b[0] !in pat
    ensures CountOcc(a + t + b, pat) == CountOcc(t, pat)
  {
    CountOccAppend(a, t, pat);
    CountOccAppend(a + t, b, pat);
    CountOccMissing(a, pat, j);
    CountOccMissing(b, pat, j);
  }

  /** No occurrence of `pat` fits inside `p`: `p` is shorter than `pat`, or the first
      character of `pat` is missing from every place an occurrence could start. */
  predicate Clear(p: String, pat: String) {
    pat != [] && (|p| < |pat| || pat[0] !in p[..|p| - |pat| + 1])
  }

  lemma CountOccClear(p: String, pat: String)
    requires Clear(p, pat)
    ensures CountOcc(p, pat) == 0
  {
    if |p| < |pat| {
      CountOccShort(p, pat);
    } else {
      CountOccNone(p, pat);
    }
  }

  /** A piece that holds no occurrence, with a seam no occurrence can straddle, adds nothing
      in front of `rest`. */
  lemma CountOccSkip(p: String, rest: String, pat: String)
    requires Clear(p, pat)
    requires (p != [] && p[|p| - 1] !in pat) || (rest != [] && rest[0] !in pat)
    ensures CountOcc(p + rest, pat) == CountOcc(rest, pat)
  {
    CountOccAppend(p, rest, pat);
    CountOccClear(p, pat);
  }

  /** The same for a piece that misses the character `pat[j]`. */
  lemma CountOccSkipMissing(p: String, rest: String, pat: String, j: nat)
    requires j < |pat| && pat[j] !in p
    requires (p != [] && p[|p| - 1] !in pat) || (rest != [] && rest[0] !in pat)
    ensures CountOcc(p + rest, pat) == CountOcc(rest, pat)
  {
    CountOccAppend(p, rest, pat);
    CountOccMissing(p, pat, j);
  }

  /** A last piece that misses the character `pat[j]` adds nothing after `rest`. */
  lemma CountOccDropLast(rest: String, p: String, pat: String, j: nat)
    requires j < |pat| && pat[j] !in p && p != [] && p[0] !in pat
    ensures CountOcc(rest + p, pat) == CountOcc(rest, pat)
  {
    CountOccAppend(rest, p, pat);
    CountOccMissing(p, pat, j);
  }

  /** Python `s.strip(c)` for a single character `c`. */
  function StripChar(s: String, c: char): (r: String)
    ensures |r| <= |s|
    ensures r == [] || (r[0] != c && r[|r| - 1] != c)
    decreases |s|
  {
    if s != [] && s[0] == c then StripChar(s[1..], c)
    else if s != [] && s[|s| - 1] == c then StripChar(s[..|s| - 1], c)
    else s
  }

  /** Python `s.rstrip(c)` for a single character `c`. */
  function RStripChar(s: String, c: char): (r: String)
    ensures |r| <= |s| && r == s[..|r|] && forall i :: |r| <= i < |s| ==> s[i] == c
    ensures r == [] || r[|r| - 1] != c
  {
    if s != [] && s[|s| - 1] == c then RStripChar(s[..|s| - 1], c) else s
  }

  /** JavaScript `s.replace(/c$/, '')`: one trailing `c` removed. */
  function DropOneTrailing(s: String, c: char): (r: String)
    ensures r == (if s != [] && s[|s| - 1] == c then s[..|s| - 1] else s)
  {
    if s != [] && s[|s| - 1] == c then s[..|s| - 1] else s
  }

  /** ASCII lower case, the case folding of a JavaScript `/i` pattern over ASCII text. */
  function Lower(c: char): char {
    if 'A' <= c <= 'Z' then (c as int + 32) as char else c
  }

  function LowerAll(s: String): (r: String)
    ensures |r| == |s| && forall i :: 0 <= i < |s| ==> r[i] == Lower(s[i])
  {
    if s == [] then [] else [Lower(s[0])] + LowerAll(s[1..])
  }

  /** A case-insensitive (ASCII) `endsWith`; `p` is already lower case. */
  predicate EndsWithCi(s: String, p: String) {
    |p| <= |s| && LowerAll(s[|s| - |p|..]) == p
  }

  /** A case-insensitive (ASCII) `startsWith`; `p` is already lower case. */
  predicate StartsWithCi(s: String, p: String) {
    |p| <= |s| && LowerAll(s[..|p|]) == p
  }

  function QuoteCount(s: String): nat {
    if s == [] then 0 else (if s[0] == '"' || s[0] == '\'' then 1 else 0) + QuoteCount(s[1..])
  }

  function EscapeChar(c: char): String {
    if c == '"' then ['\\', '"'] else if c == '\'' then ['\\', '\''] else [c]
  }

  /** `s.replace('"', '\\"').replace("'", "\\'")`: a backslash before every quote. */
  function EscapeQuotes(s: String): (r: String)
    ensures |r| == |s| + QuoteCount(s)
  {
    if s == [] then [] else EscapeChar(s[0]) + EscapeQuotes(s[1..])
  }

  /** An escaped text never starts with a quote. */
  lemma EscapeQuotesHead(s: String)
    requires s != []
    ensures EscapeQuotes(s)[0] == (if s[0] == '"' || s[0] == '\'' then '\\' else s[0])
  {
    assert EscapeQuotes(s) == EscapeChar(s[0]) + EscapeQuotes(s[1..]);
  }

  predicate QuotesBackslashed(r: String) {
    forall i :: 0 <= i < |r| && (r[i] == '"' || r[i] == '\'') ==> i > 0 && r[i - 1] == '\\'
  }

  /** Every quote of an escaped text comes right after a backslash, so none of them can end
      the string literal the text is placed in. */
  lemma {:induction false} EscapedQuotesBackslashed(s: String)
    ensures QuotesBackslashed(EscapeQuotes(s))
  {
    if s != [] {
      var e := EscapeChar(s[0]);
      var t := EscapeQuotes(s[1..]);
      EscapedQuotesBackslashed(s[1..]);
      assert QuotesBackslashed(t);
      if s[1..] != [] {
        EscapeQuotesHead(s[1..]);
      }
      var r := e + t;
      assert EscapeQuotes(s) == r;
      forall i | 0 <= i < |r| && (r[i] == '"' || r[i] == '\'') ensures i > 0 && r[i - 1] == '\\' {
        if i >= |e| {
          var j := i - |e|;
          assert r[i] == t[j];
          if j > 0 {
            assert r[i - 1] == t[j - 1];
          }
        } else {
          assert r[i] == e[i];
          assert i > 0 ==> r[i - 1] == e[i - 1];
          assert i > 0 && r[i - 1] == '\\';
        }
      }
    }
  }

  /** Reading back a string literal body: a backslash makes the next character literal. */
  function Unescape(s: String): String
    decreases |s|
  {
    if s == [] then []
    else if s[0] == '\\' && |s| >= 2 then [s[1]] + Unescape(s[2..])
    else [s[0]] + Unescape(s[1..])
  }

  /** Escaping is undone by reading the literal back, for text without backslashes. */
  lemma {:induction false} UnescapeEscape(s: String)
    requires '\\' !in s
    ensures Unescape(EscapeQuotes(s)) == s
  {
    if s != [] {
      var e := EscapeChar(s[0]);
      assert EscapeQuotes(s) == e + EscapeQuotes(s[1..]);
      UnescapeEscape(s[1..]);
      if |e| == 2 {
        assert (e + EscapeQuotes(s[1..]))[2..] == EscapeQuotes(s[1..]);
      } else {
        assert (e + EscapeQuotes(s[1..]))[1..] == EscapeQuotes(s[1..]);
      }
    }
  }

  /** Replacing a single character is the character-wise map. */
  lemma {:induction false} ReplaceCharConcat(a: String, b: String, c: char, rep: String)
    ensures ReplaceAll(a + b, [c], rep) == ReplaceAll(a, [c], rep) + ReplaceAll(b, [c], rep)
    decreases |a|
  {
    if a != [] {
      var h := if a[0] == c then rep else [a[0]];
      assert (a + b)[..1] == a[..1] == [a[0]];
      assert (a + b)[1..] == a[1..] + b;
      ReplaceCharConcat(a[1..], b, c, rep);
      calc {
        ReplaceAll(a + b, [c], rep);
        h + ReplaceAll(a[1..] + b, [c], rep);
        h + (ReplaceAll(a[1..], [c], rep) + ReplaceAll(b, [c], rep));
        (h + ReplaceAll(a[1..], [c], rep)) + ReplaceAll(b, [c], rep);
      }
    } else {
      assert a + b == b;
    }
  }

  /** The two chained `replace` calls of the scripts compute `EscapeQuotes`: the backslashes
      the first call inserts are not touched by the second. */
  lemma {:induction false} EscapeQuotesIsChainedReplace(s: String)
    ensures EscapeQuotes(s) == ReplaceAll(ReplaceAll(s, "\"", "\\\""), "'", "\\'")
  {
    if s != [] {
      var t := s[1..];
      EscapeQuotesIsChainedReplace(t);
      assert s == [s[0]] + t;
      ReplaceCharConcat([s[0]], t, '"', "\\\"");
      var a := ReplaceAll([s[0]], "\"", "\\\"");
      ReplaceCharConcat(a, ReplaceAll(t, "\"", "\\\""), '\'', "\\'");
      EscapeCharChained(s[0]);
    }
  }

  /** One character through the two chained `replace` calls. */
  lemma EscapeCharChained(c: char)
    ensures ReplaceAll(ReplaceAll([c], "\"", "\\\""), "'", "\\'") == EscapeChar(c)
  {
    if c == '"' {
      assert ReplaceAll([c], "\"", "\\\"") == "\\\"";
      assert ReplaceAll("\\\"", "'", "\\'") == "\\\"";
    } else if c == '\'' {
      assert ReplaceAll([c], "\"", "\\\"") == [c];
    } else {
      assert ReplaceAll([c], "\"", "\\\"") == [c];
      assert ReplaceAll([c], "'", "\\'") == [c];
    }
  }

  /** `s.split(c)` in Python and JavaScript: the pieces between the occurrences of `c`, with
      empty pieces kept; there is always at least one piece. */
  function Split(s: String, c: char): (r: seq<String>)
    ensures |r| >= 1
    ensures forall i :: 0 <= i < |r| ==> c !in r[i]
  {
    if s == [] then [[]]
    else
      var t := Split(s[1..], c);
      if s[0] == c then [[]] + t else [[s[0]] + t[0]] + t[1..]
  }

  /** `ls.join(c)`. */
  function Join(ls: seq<String>, c: char): String {
    if |ls| == 0 then []
    else if |ls| == 1 then ls[0]
    else ls[0] + [c] + Join(ls[1..], c)
  }

  /** Joining the pieces of a split gives back the string. */
  lemma {:induction false} JoinSplit(s: String, c: char)
    ensures Join(Split(s, c), c) == s
  {
    if s != [] {
      var t := Split(s[1..], c);
      JoinSplit(s[1..], c);
      if s[0] == c {
        assert Split(s, c) == [[]] + t;
        assert ([[]] + t)[1..] == t;
      } else {
        var r := [[s[0]] + t[0]] + t[1..];
        assert Split(s, c) == r;
        if |t| == 1 {
          assert Join(r, c) == [s[0]] + t[0];
        } else {
          assert r[1..] == t[1..];
          assert Join(r, c) == (([s[0]] + t[0]) + [c]) + Join(t[1..], c);
          AppendAssoc([s[0]], t[0], [c]);
          AppendAssoc([s[0]], t[0] + [c], Join(t[1..], c));
          assert Join(t, c) == (t[0] + [c]) + Join(t[1..], c);
        }
      }
    }
  }

  /** A piece followed by the separator splits off exactly that piece. */
  lemma {:induction false} SplitCons(a: String, c: char, b: String)
    requires c !in a
    ensures Split(a + [c] + b, c) == [a] + Split(b, c)
    decreases |a|
  {
    if a == [] {
      assert a + [c] + b == [c] + b;
      assert ([c] + b)[1..] == b;
    } else {
      var s := a + [c] + b;
      assert s[0] == a[0] && s[1..] == a[1..] + [c] + b;
      SplitCons(a[1..], c, b);
      assert [a[0]] + a[1..] == a;
    }
  }

  /** A string free of the separator is one piece. */
  lemma {:induction false} SplitNone(a: String, c: char)
    requires c !in a
    ensures Split(a, c) == [a]
  {
    if a != [] {
      SplitNone(a[1..], c);
      assert [a[0]] + a[1..] == a;
    }
  }

  /** Splitting what was joined gives back the pieces, when no piece holds the separator. */
  lemma {:induction false} SplitJoin(ls: seq<String>, c: char)
    requires |ls| >= 1
    requires forall i :: 0 <= i < |ls| ==> c !in ls[i]
    ensures Split(Join(ls, c), c) == ls
  {
    if |ls| == 1 {
      SplitNone(ls[0], c);
    } else {
      SplitJoin(ls[1..], c);
      SplitCons(ls[0], c, Join(ls[1..], c));
    }
  }

  /** `c.repeat(n)`. */
  function Repeat(c: char, n: nat): (r: String)
    ensures |r| == n && forall i :: 0 <= i < n ==> r[i] == c
  {
    if n == 0 then [] else [c] + Repeat(c, n - 1)
  }

  /** Python `s.split(c)[-1]`: what follows the last `c`, or all of `s`. */
  function LastPiece(s: String, c: char): (r: String)
    ensures c !in r && EndsWith(s, r)
  {
    var ps := Split(s, c);
    SplitLastIsSuffix(s, c);
    ps[|ps| - 1]
  }

  lemma {:induction false} SplitLastIsSuffix(s: String, c: char)
    ensures EndsWith(s, Split(s, c)[|Split(s, c)| - 1])
  {
    if s != [] {
      SplitLastIsSuffix(s[1..], c);
      var t := Split(s[1..], c);
      var l := t[|t| - 1];
      var r := Split(s, c);
      if s[0] == c || |t| > 1 {
        assert r[|r| - 1] == l;
        assert s[|s| - |l|..] == s[1..][|s| - 1 - |l|..];
      } else {
        JoinSplit(s[1..], c);
        assert Join(t, c) == t[0];
        assert r[|r| - 1] == [s[0]] + s[1..] == s;
      }
    }
  }

  /** Each line followed by a line feed. */
  function Unlines(ls: seq<String>): String {
    if ls == [] then [] else ls[0] + "\n" + Unlines(ls[1..])
  }

  lemma {:induction false} UnlinesAppend(a: seq<String>, b: seq<String>)
    ensures Unlines(a + b) == Unlines(a) + Unlines(b)
  {
    if a == [] {
      assert a + b == b;
    } else {
      assert (a + b)[0] == a[0] && (a + b)[1..] == a[1..] + b;
      UnlinesAppend(a[1..], b);
    }
  }

  /** Appending one terminated line to text that ends in terminated lines. */
  lemma UnlinesSnoc(pre: String, ls: seq<String>, l: String)
    ensures pre + Unlines(ls) + l + "\n" == pre + Unlines(ls + [l])
  {
    UnlinesAppend(ls, [l]);
    assert Unlines([l]) == l + "\n";
    AppendAssoc(pre + Unlines(ls), l, "\n");
    AppendAssoc(pre, Unlines(ls), l + "\n");
  }

  /** Appending a block of terminated lines. */
  lemma UnlinesConcat(pre: String, ls: seq<String>, more: seq<String>)
    ensures pre + Unlines(ls) + Unlines(more) == pre + Unlines(ls + more)
  {
    UnlinesAppend(ls, more);
    AppendAssoc(pre, Unlines(ls), Unlines(more));
  }

  /** The lines framed by a first and last pair of lines. */
  lemma UnlinesFramed(first: String, ls: seq<String>, last: seq<String>)
    ensures first + "\n" + Unlines(ls) + Unlines(last) == Unlines([first] + ls + last)
  {
    UnlinesAppend([first] + ls, last);
    assert ([first] + ls)[1..] == ls;
    assert Unlines([first] + ls) == first + "\n" + Unlines(ls);
    AppendAssoc(first + "\n", Unlines(ls), Unlines(last));
  }

  /** Text made of terminated lines splits back into those lines, then the rest. */
  lemma {:induction false} SplitUnlines(ls: seq<String>, rest: String)
    requires forall i :: 0 <= i < |ls| ==> '\n' !in ls[i]
    ensures Split(Unlines(ls) + rest, '\n') == ls + Split(rest, '\n')
    decreases |ls|
  {
    if ls == [] {
      assert Unlines(ls) + rest == rest;
    } else {
      var head, tail := ls[0], ls[1..];
      var more := Unlines(tail) + rest;
      assert forall i :: 0 <= i < |tail| ==> tail[i] == ls[i + 1];
      SplitUnlines(tail, rest);
      assert Unlines(ls) + rest == head + ['\n'] + more by {
        assert Unlines(ls) == (head + "\n") + Unlines(tail);
        AppendAssoc(head + "\n", Unlines(tail), rest);
      }
      SplitCons(head, '\n', more);
      AppendAssoc([head], tail, Split(rest, '\n'));
      assert [head] + tail == ls;
    }
  }

  predicate IsQuote(c: char) {
    c == '"' || c == '\''
  }

  /** The first index at or after `j` holding one of `stops`, or `|s|` when there is none. */
  function FirstOf(s: String, j: nat, stops: set<char>): (k: nat)
    requires j <= |s|
    ensures j <= k <= |s| && (k < |s| ==> s[k] in stops)
    decreases |s| - j
  {
    if j == |s| || s[j] in stops then j else FirstOf(s, j + 1, stops)
  }

  /** No character before the one `FirstOf` finds is a stop. */
  lemma {:induction false} FirstOfSkips(s: String, j: nat, stops: set<char>)
    requires j <= |s|
    ensures forall m :: j <= m < FirstOf(s, j, stops) ==> s[m] !in stops
    decreases |s| - j
  {
    if j < |s| && s[j] !in stops {
      FirstOfSkips(s, j + 1, stops);
    }
  }

  /** `FirstOf` stops at the first stop, or at the end when there is none. */
  lemma {:induction false} FirstOfAt(s: String, j: nat, k: nat, stops: set<char>)
    requires j <= k <= |s| && (k < |s| ==> s[k] in stops) && forall m :: j <= m < k ==> s[m] !in stops
    ensures FirstOf(s, j, stops) == k
    decreases k - j
  {
    if j < k {
      FirstOfAt(s, j + 1, k, stops);
    }
  }

  const Quotes: set<char> := {'"', '\''}
}
