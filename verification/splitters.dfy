/** The binding generator's bracket-aware scanners over Rust source text. */
module Splitters {
  import opened Wrappers

  // ---- Depth counters ----

  /** Brackets opened minus brackets closed. */
  function Raw(s: string, open: char, close: char): int {
    if s == "" then 0
    else Raw(s[..|s| - 1], open, close) +
         (if s[|s| - 1] == open then 1 else if s[|s| - 1] == close then -1 else 0)
  }

  /** One step of a counter that ignores a close when nothing is open. */
  function Bump(depth: nat, c: char, open: char, close: char): nat {
    if c == open then depth + 1 else if c == close && depth > 0 then depth - 1 else depth
  }

  /** The counter after reading `s`; `splitTopLevel` keeps three of them. */
  function Clamped(s: string, open: char, close: char): nat {
    if s == "" then 0 else Bump(Clamped(s[..|s| - 1], open, close), s[|s| - 1], open, close)
  }

  lemma {:induction false} ClampedStep(s: string, i: nat, open: char, close: char)
    requires i < |s|
    ensures Clamped(s[..i + 1], open, close) == Bump(Clamped(s[..i], open, close), s[i], open, close)
  {
    assert s[..i + 1][..|s[..i + 1]| - 1] == s[..i];
  }

  /** The lowest raw depth any prefix of `s` reaches, the empty one included. */
  function Lowest(s: string, open: char, close: char): int {
    if s == "" then 0
    else
      var low, raw := Lowest(s[..|s| - 1], open, close), Raw(s, open, close);
      if raw < low then raw else low
  }

  lemma {:induction false} LowestIsLeast(s: string, open: char, close: char, n: nat)
    requires n <= |s|
    ensures Lowest(s, open, close) <= Raw(s[..n], open, close)
    ensures Lowest(s, open, close) <= 0
  {
    if n == |s| {
      assert s[..n] == s;
      if s != "" {
        LowestIsLeast(s[..|s| - 1], open, close, 0);
      }
    } else {
      assert s[..n] == s[..|s| - 1][..n];
      LowestIsLeast(s[..|s| - 1], open, close, n);
    }
  }

  /** The clamped counter is the raw depth measured from its lowest point so far. */
  lemma {:induction false} ClampedIsRawAboveLowest(s: string, open: char, close: char)
    requires open != close
    ensures Clamped(s, open, close) == Raw(s, open, close) - Lowest(s, open, close)
  {
    if s != "" {
      ClampedIsRawAboveLowest(s[..|s| - 1], open, close);
    }
  }

  // ---- splitTopLevel ----

  /** No bracket of any of the three kinds is open after `s`. */
  predicate TopLevel(s: string) {
    Clamped(s, '<', '>') == 0 && Clamped(s, '(', ')') == 0 && Clamped(s, '{', '}') == 0
  }

  /** `s` is cut at position `i`: a separator outside all brackets. */
  predicate Cut(s: string, sep: char, i: nat)
    requires i < |s|
  {
    s[i] == sep && TopLevel(s[..i + 1])
  }

  /** For each position of `s`, whether `splitTopLevel` cuts there. */
  function CutMarks(s: string, sep: char): (marks: seq<bool>)
    ensures |marks| == |s| && forall i :: 0 <= i < |s| ==> marks[i] == Cut(s, sep, i)
  {
    seq(|s|, i requires 0 <= i < |s| => Cut(s, sep, i))
  }

  /** The pieces ended so far, and where the current one starts. */
  datatype Scan = Scan(pieces: seq<string>, start: nat)

  /** The first `n` characters of `s`, cut at the marked ones. */
  function ScanTo(s: string, marks: seq<bool>, n: nat): (r: Scan)
    requires |marks| == |s| && n <= |s|
    ensures r.start <= n
  {
    if n == 0 then Scan([], 0)
    else
      var r := ScanTo(s, marks, n - 1);
      if marks[n - 1] then Scan(r.pieces + [s[r.start..n - 1]], n) else r
  }

  lemma {:induction false} ScanStep(s: string, marks: seq<bool>, i: nat)
    requires |marks| == |s| && i < |s|
    ensures var r := ScanTo(s, marks, i);
            ScanTo(s, marks, i + 1) == if marks[i] then Scan(r.pieces + [s[r.start..i]], i + 1) else r
  {
  }

  lemma {:induction false} ScanStart(s: string, marks: seq<bool>, n: nat)
    requires |marks| == |s| && n <= |s|
    ensures var r := ScanTo(s, marks, n);
            && (r.pieces == [] <==> r.start == 0)
            && (n > 0 ==> (r.start == n <==> marks[n - 1]))
  {
    if n > 0 {
      ScanStart(s, marks, n - 1);
    }
  }

  /** `s` cut at the marked positions; the text after the last cut is a piece only if there is any. */
  function Split(s: string, marks: seq<bool>): seq<string>
    requires |marks| == |s|
  {
    var r := ScanTo(s, marks, |s|);
    if r.start == |s| then r.pieces else r.pieces + [s[r.start..]]
  }

  /** The loop's text variables after `n` characters. */
  ghost predicate SplitState(s: string, marks: seq<bool>, n: nat, out: seq<string>, cur: string)
    requires |marks| == |s| && n <= |s|
  {
    var r := ScanTo(s, marks, n);
    out == r.pieces && cur == s[r.start..n]
  }

  lemma {:induction false} SplitStep(s: string, marks: seq<bool>, n: nat, out: seq<string>, cur: string)
    requires |marks| == |s| && n < |s| && SplitState(s, marks, n, out, cur)
    ensures if marks[n] then SplitState(s, marks, n + 1, out + [cur], "")
            else SplitState(s, marks, n + 1, out, cur + [s[n]])
  {
    ScanStep(s, marks, n);
  }

  lemma {:induction false} SplitEnd(s: string, marks: seq<bool>, out: seq<string>, cur: string)
    requires |marks| == |s| && SplitState(s, marks, |s|, out, cur)
    ensures Split(s, marks) == if cur == "" then out else out + [cur]
  {
    assert cur == s[ScanTo(s, marks, |s|).start..];
  }

  /** The loop's three counters after the text `s`. */
  ghost predicate Counted(s: string, angle: nat, paren: nat, brace: nat) {
    angle == Clamped(s, '<', '>') && paren == Clamped(s, '(', ')') && brace == Clamped(s, '{', '}')
  }

  lemma {:induction false} CountStep(s: string, i: nat, angle: nat, paren: nat, brace: nat)
    requires i < |s| && Counted(s[..i], angle, paren, brace)
    ensures Counted(s[..i + 1], Bump(angle, s[i], '<', '>'), Bump(paren, s[i], '(', ')'), Bump(brace, s[i], '{', '}'))
  {
    ClampedStep(s, i, '<', '>');
    ClampedStep(s, i, '(', ')');
    ClampedStep(s, i, '{', '}');
  }

  method SplitTopLevel(s: string, sep: char) returns (out: seq<string>)
    ensures out == Split(s, CutMarks(s, sep))
  {
    out := [];
    var cur := "";
    var angle, paren, brace := 0, 0, 0;
    ghost var marks := CutMarks(s, sep);
    for i := 0 to |s|
      invariant Counted(s[..i], angle, paren, brace)
      invariant SplitState(s, marks, i, out, cur)
    {
      var r := s[i];
      CountStep(s, i, angle, paren, brace);
      SplitStep(s, marks, i, out, cur);
      match r {
        case '<' => angle := angle + 1;
        case '>' => if angle > 0 { angle := angle - 1; }
        case '(' => paren := paren + 1;
        case ')' => if paren > 0 { paren := paren - 1; }
        case '{' => brace := brace + 1;
        case '}' => if brace > 0 { brace := brace - 1; }
        case _ =>
      }
      if r == sep && angle == 0 && paren == 0 && brace == 0 {
        out := out + [cur];
        cur := "";
        continue;
      }
      cur := cur + [r];
    }
    assert s[..|s|] == s;
    SplitEnd(s, marks, out, cur);
    if |cur| > 0 {
      out := out + [cur];
    }
  }

  function Join(pieces: seq<string>, sep: char): string {
    if pieces == [] then ""
    else if |pieces| == 1 then pieces[0]
    else Join(pieces[..|pieces| - 1], sep) + [sep] + pieces[|pieces| - 1]
  }

  lemma {:induction false} JoinAppend(pieces: seq<string>, piece: string, sep: char)
    ensures Join(pieces + [piece], sep) == if pieces == [] then piece else Join(pieces, sep) + [sep] + piece
  {
    assert (pieces + [piece])[..|pieces|] == pieces;
  }

  lemma {:induction false} ExtendPrefix(s: string, a: nat, b: nat)
    requires a <= b < |s|
    ensures s[..a] + s[a..b] + [s[b]] == s[..b + 1]
  {
  }

  lemma {:induction false} JoinScan(s: string, marks: seq<bool>, sep: char, n: nat)
    requires |marks| == |s| && n <= |s|
    requires forall i :: 0 <= i < |s| && marks[i] ==> s[i] == sep
    ensures var r := ScanTo(s, marks, n);
            r.start > 0 ==> Join(r.pieces, sep) + [sep] == s[..r.start]
  {
    if n > 0 {
      var r := ScanTo(s, marks, n - 1);
      JoinScan(s, marks, sep, n - 1);
      ScanStep(s, marks, n - 1);
      ScanStart(s, marks, n - 1);
      if marks[n - 1] {
        JoinAppend(r.pieces, s[r.start..n - 1], sep);
        ExtendPrefix(s, r.start, n - 1);
        assert r.start == 0 ==> s[..r.start] == "";
      }
    }
  }

  lemma {:induction false} JoinWhenCutAtEnd(s: string, marks: seq<bool>, sep: char)
    requires |marks| == |s| && forall i :: 0 <= i < |s| && marks[i] ==> s[i] == sep
    requires s != "" && marks[|s| - 1]
    ensures Join(Split(s, marks), sep) + [sep] == s
  {
    JoinScan(s, marks, sep, |s|);
    ScanStart(s, marks, |s|);
    assert s[..|s|] == s;
  }

  lemma {:induction false} JoinWhenTextIsLeft(s: string, marks: seq<bool>, sep: char)
    requires |marks| == |s| && forall i :: 0 <= i < |s| && marks[i] ==> s[i] == sep
    requires s != "" && !marks[|s| - 1]
    ensures Join(Split(s, marks), sep) == s
  {
    var r := ScanTo(s, marks, |s|);
    ScanStart(s, marks, |s|);
    JoinAppend(r.pieces, s[r.start..], sep);
    if r.start == 0 {
      assert s[0..] == s;
    } else {
      JoinScan(s, marks, sep, |s|);
      assert s[..r.start] + s[r.start..] == s;
    }
  }

  /** Joining the pieces with the separator restores the text, up to one separator that ends it at top level. */
  lemma {:induction false} JoinUndoesSplit(s: string, sep: char)
    ensures s == Join(Split(s, CutMarks(s, sep)), sep) + (if s != "" && Cut(s, sep, |s| - 1) then [sep] else "")
  {
    if s == "" {
    } else if Cut(s, sep, |s| - 1) {
      JoinWhenCutAtEnd(s, CutMarks(s, sep), sep);
    } else {
      JoinWhenTextIsLeft(s, CutMarks(s, sep), sep);
    }
  }

  // ---- splitReturnType ----

  /** `unicode.IsSpace`. */
  predicate IsSpace(c: char) {
    var n := c as int;
    || 9 <= n <= 13 || n == 32 || n == 0x85 || n == 0xA0 || n == 0x1680 || 0x2000 <= n <= 0x200A
    || n == 0x2028 || n == 0x2029 || n == 0x202F || n == 0x205F || n == 0x3000
  }

  /** `strings.TrimSpace`. */
  function Trim(s: string): string {
    if s == "" then ""
    else if IsSpace(s[0]) then Trim(s[1..])
    else if IsSpace(s[|s| - 1]) then Trim(s[..|s| - 1])
    else s
  }

  /** Everything outside `s[i..j]` is blank. */
  predicate BlankOutside(s: string, i: nat, j: nat) {
    && i <= j <= |s|
    && (forall k :: 0 <= k < i ==> IsSpace(s[k]))
    && (forall k :: j <= k < |s| ==> IsSpace(s[k]))
  }

  lemma {:induction false} BlankHead(s: string, a: nat, b: nat)
    requires s != "" && IsSpace(s[0]) && BlankOutside(s[1..], a, b)
    ensures BlankOutside(s, a + 1, b + 1) && s[1..][a..b] == s[a + 1..b + 1]
  {
    forall k | 0 <= k < a + 1 ensures IsSpace(s[k]) {
      assert k > 0 ==> s[k] == s[1..][k - 1];
    }
    forall k | b + 1 <= k < |s| ensures IsSpace(s[k]) {
      assert s[k] == s[1..][k - 1];
    }
  }

  lemma {:induction false} BlankTail(s: string, a: nat, b: nat)
    requires s != "" && IsSpace(s[|s| - 1]) && BlankOutside(s[..|s| - 1], a, b)
    ensures BlankOutside(s, a, b) && s[..|s| - 1][a..b] == s[a..b]
  {
    forall k | 0 <= k < a ensures IsSpace(s[k]) {
      assert s[k] == s[..|s| - 1][k];
    }
    forall k | b <= k < |s| ensures IsSpace(s[k]) {
      assert k < |s| - 1 ==> s[k] == s[..|s| - 1][k];
    }
  }

  /** Trimming drops the blanks at both ends and nothing else: what is left is a slice without blank ends. */
  lemma {:induction false} TrimDropsBlankEnds(s: string) returns (i: nat, j: nat)
    ensures BlankOutside(s, i, j) && Trim(s) == s[i..j]
    ensures Trim(s) != "" ==> !IsSpace(Trim(s)[0]) && !IsSpace(Trim(s)[|Trim(s)| - 1])
    decreases |s|
  {
    if s == "" {
      i, j := 0, 0;
    } else if IsSpace(s[0]) {
      var a, b := TrimDropsBlankEnds(s[1..]);
      BlankHead(s, a, b);
      i, j := a + 1, b + 1;
    } else if IsSpace(s[|s| - 1]) {
      i, j := TrimDropsBlankEnds(s[..|s| - 1]);
      BlankTail(s, i, j);
    } else {
      i, j := 0, |s|;
      assert s[0..|s|] == s;
    }
  }

  /** The blanks are Unicode's: the ASCII ones, next line, no-break space, and the typographic ones. */
  lemma {:induction false} SpacesAre(c: char)
    ensures IsSpace(c) <==>
            || c in "\t\n\r " || c as int in [0x0B, 0x0C, 0x85, 0xA0, 0x1680, 0x2028, 0x2029, 0x202F, 0x205F, 0x3000]
            || c as int in [0x2000, 0x2001, 0x2002, 0x2003, 0x2004, 0x2005, 0x2006, 0x2007, 0x2008, 0x2009, 0x200A]
  {
  }

  function TrimAll(pieces: seq<string>): (r: seq<string>)
    ensures |r| == |pieces|
  {
    if pieces == [] then [] else TrimAll(pieces[..|pieces| - 1]) + [Trim(pieces[|pieces| - 1])]
  }

  lemma {:induction false} TrimAllAppend(pieces: seq<string>, piece: string)
    ensures TrimAll(pieces + [piece]) == TrimAll(pieces) + [Trim(piece)]
  {
    assert (pieces + [piece])[..|pieces|] == pieces;
  }

  /** The single depth `splitReturnType` keeps, never clamped. */
  function ReturnDepth(s: string): int {
    Raw(s, '<', '>') + Raw(s, '(', ')')
  }

  /** A comma `splitReturnType` cuts at. */
  predicate ReturnCut(s: string, i: nat)
    requires i < |s|
  {
    s[i] == ',' && ReturnDepth(s[..i]) == 0
  }

  function ReturnMarks(s: string): (marks: seq<bool>)
    ensures |marks| == |s| && forall i :: 0 <= i < |s| ==> marks[i] == ReturnCut(s, i)
  {
    seq(|s|, i requires 0 <= i < |s| => ReturnCut(s, i))
  }

  /** `s` cut at the marked positions with trimmed pieces; the text after the last cut is one only if it is not blank. */
  function TrimmedSplit(s: string, marks: seq<bool>): seq<string>
    requires |marks| == |s|
  {
    var r := ScanTo(s, marks, |s|);
    var rest := Trim(s[r.start..]);
    TrimAll(r.pieces) + (if rest == "" then [] else [rest])
  }

  lemma {:induction false} RawStep(s: string, i: nat, open: char, close: char)
    requires i < |s|
    ensures Raw(s[..i + 1], open, close) ==
            Raw(s[..i], open, close) + (if s[i] == open then 1 else if s[i] == close then -1 else 0)
  {
    assert s[..i + 1][..|s[..i + 1]| - 1] == s[..i];
  }

  /** The loop's variables after `n` characters. */
  ghost predicate ReturnState(s: string, marks: seq<bool>, n: nat, result: seq<string>, current: string)
    requires |marks| == |s| && n <= |s|
  {
    var r := ScanTo(s, marks, n);
    result == TrimAll(r.pieces) && current == s[r.start..n]
  }

  lemma {:induction false} ReturnStep(s: string, marks: seq<bool>, n: nat, result: seq<string>, current: string)
    requires |marks| == |s| && n < |s| && ReturnState(s, marks, n, result, current)
    ensures if marks[n] then ReturnState(s, marks, n + 1, result + [Trim(current)], "")
            else ReturnState(s, marks, n + 1, result, current + [s[n]])
  {
    var r := ScanTo(s, marks, n);
    assert SplitState(s, marks, n, r.pieces, current);
    SplitStep(s, marks, n, r.pieces, current);
    TrimAllAppend(r.pieces, current);
  }

  lemma {:induction false} ReturnEnd(s: string, marks: seq<bool>, result: seq<string>, current: string)
    requires |marks| == |s| && ReturnState(s, marks, |s|, result, current)
    ensures TrimmedSplit(s, marks) == result + (if Trim(current) == "" then [] else [Trim(current)])
  {
    var r := ScanTo(s, marks, |s|);
    assert s[r.start..|s|] == s[r.start..];
  }

  method SplitReturnType(s: string) returns (result: seq<string>)
    ensures result == TrimmedSplit(s, ReturnMarks(s))
  {
    result := [];
    var current := "";
    var depth := 0;
    ghost var marks := ReturnMarks(s);
    for i := 0 to |s|
      invariant depth == ReturnDepth(s[..i])
      invariant ReturnState(s, marks, i, result, current)
    {
      var ch := s[i];
      RawStep(s, i, '<', '>');
      RawStep(s, i, '(', ')');
      ReturnStep(s, marks, i, result, current);
      match ch {
        case '<' => depth := depth + 1; current := current + [ch];
        case '(' => depth := depth + 1; current := current + [ch];
        case '>' => depth := depth - 1; current := current + [ch];
        case ')' => depth := depth - 1; current := current + [ch];
        case ',' =>
          if depth == 0 {
            result := result + [Trim(current)];
            current := "";
          } else {
            current := current + [ch];
          }
        case _ => current := current + [ch];
      }
    }
    ReturnEnd(s, marks, result, current);
    if Trim(current) != "" {
      result := result + [Trim(current)];
    }
  }

  // ---- Agreement ----

  /** The two splitters agree on `s`: the same trimmed pieces, up to a blank last one. */
  ghost predicate Agree(s: string) {
    var pieces, result := TrimAll(Split(s, CutMarks(s, ','))), TrimmedSplit(s, ReturnMarks(s));
    result == pieces || pieces == result + [""]
  }

  lemma {:induction false} TrimmingASplit(s: string, marks: seq<bool>)
    requires |marks| == |s|
    ensures TrimmedSplit(s, marks) == TrimAll(Split(s, marks)) || TrimAll(Split(s, marks)) == TrimmedSplit(s, marks) + [""]
  {
    var r := ScanTo(s, marks, |s|);
    TrimAllAppend(r.pieces, s[r.start..]);
    assert r.start == |s| ==> s[r.start..] == "";
  }

  // Different cuts give different pieces, told apart by their commas.

  function Commas(s: string): nat {
    if s == "" then 0 else Commas(s[..|s| - 1]) + (if s[|s| - 1] == ',' then 1 else 0)
  }

  lemma {:induction false} CommasAdd(a: string, b: string)
    ensures Commas(a + b) == Commas(a) + Commas(b)
  {
    if b == "" {
      assert a + b == a;
    } else {
      assert (a + b)[..|a + b| - 1] == a + b[..|b| - 1];
      CommasAdd(a, b[..|b| - 1]);
    }
  }

  lemma {:induction false} TrimKeepsCommas(s: string)
    ensures Commas(Trim(s)) == Commas(s)
    decreases |s|
  {
    if s != "" {
      if IsSpace(s[0]) {
        TrimKeepsCommas(s[1..]);
        assert s == [s[0]] + s[1..];
        CommasAdd([s[0]], s[1..]);
        assert [s[0]][..0] == "";
      } else if IsSpace(s[|s| - 1]) {
        TrimKeepsCommas(s[..|s| - 1]);
      }
    }
  }

  lemma {:induction false} TrimAllAt(pieces: seq<string>, k: nat)
    requires k < |pieces|
    ensures TrimAll(pieces)[k] == Trim(pieces[k])
  {
    if k < |pieces| - 1 {
      TrimAllAt(pieces[..|pieces| - 1], k);
    }
  }

  lemma {:induction false} SameMarksSameScan(s: string, m: seq<bool>, m': seq<bool>, n: nat)
    requires |m| == |m'| == |s| && n <= |s| && forall i :: 0 <= i < n ==> m[i] == m'[i]
    ensures ScanTo(s, m, n) == ScanTo(s, m', n)
  {
    if n > 0 {
      SameMarksSameScan(s, m, m', n - 1);
    }
  }

  /** The piece being read after `n` characters begins with what has been read of it, and so has its commas. */
  lemma {:induction false} OpenPiece(s: string, marks: seq<bool>, n: nat, m: nat)
    requires |marks| == |s| && n <= m <= |s|
    ensures var r, later := ScanTo(s, marks, n), ScanTo(s, marks, m);
            if |later.pieces| == |r.pieces| then later.start == r.start
            else |later.pieces| > |r.pieces| && Commas(later.pieces[|r.pieces|]) >= Commas(s[r.start..n])
    decreases m
  {
    if n < m {
      var r, before := ScanTo(s, marks, n), ScanTo(s, marks, m - 1);
      OpenPiece(s, marks, n, m - 1);
      ScanStep(s, marks, m - 1);
      if marks[m - 1] && |before.pieces| == |r.pieces| {
        assert s[r.start..n] + s[n..m - 1] == s[r.start..m - 1];
        CommasAdd(s[r.start..n], s[n..m - 1]);
      }
    }
  }

  /** A piece once ended stays where it is. */
  lemma {:induction false} EndedPiece(s: string, marks: seq<bool>, i: nat, m: nat)
    requires |marks| == |s| && i < m <= |s| && marks[i]
    ensures var r, later := ScanTo(s, marks, i), ScanTo(s, marks, m);
            |later.pieces| > |r.pieces| && later.pieces[|r.pieces|] == s[r.start..i]
    decreases m
  {
    ScanStep(s, marks, m - 1);
    if i < m - 1 {
      EndedPiece(s, marks, i, m - 1);
    }
  }

  /** The piece that an uncut comma belongs to, trimmed, has one comma more than was read before it. */
  lemma {:induction false} UncutCommaStays(s: string, marks: seq<bool>, i: nat)
    requires |marks| == |s| && i < |s| && s[i] == ',' && !marks[i]
    ensures var r := ScanTo(s, marks, i);
            && |TrimmedSplit(s, marks)| > |r.pieces|
            && Commas(TrimmedSplit(s, marks)[|r.pieces|]) > Commas(s[r.start..i])
  {
    var r, end := ScanTo(s, marks, i), ScanTo(s, marks, |s|);
    var k := |r.pieces|;
    ScanStep(s, marks, i);
    assert s[r.start..i + 1][..|s[r.start..i + 1]| - 1] == s[r.start..i];
    OpenPiece(s, marks, i + 1, |s|);
    if k < |end.pieces| {
      TrimAllAt(end.pieces, k);
      TrimKeepsCommas(end.pieces[k]);
    } else {
      LastPieceKeepsComma(s, r.start, i);
      assert TrimmedSplit(s, marks)[k] == Trim(s[r.start..]);
    }
  }

  lemma {:induction false} LastPieceKeepsComma(s: string, start: nat, i: nat)
    requires start <= i < |s| && s[i] == ','
    ensures Commas(Trim(s[start..])) > Commas(s[start..i]) && Trim(s[start..]) != ""
  {
    var read := s[start..i + 1];
    assert read[..|read| - 1] == s[start..i];
    assert read + s[i + 1..] == s[start..];
    CommasAdd(read, s[i + 1..]);
    TrimKeepsCommas(s[start..]);
  }

  lemma {:induction false} CutCommaEnds(s: string, marks: seq<bool>, i: nat)
    requires |marks| == |s| && i < |s| && marks[i]
    ensures var r := ScanTo(s, marks, i);
            && |TrimmedSplit(s, marks)| > |r.pieces|
            && Commas(TrimmedSplit(s, marks)[|r.pieces|]) == Commas(s[r.start..i])
  {
    var r, end := ScanTo(s, marks, i), ScanTo(s, marks, |s|);
    EndedPiece(s, marks, i, |s|);
    TrimAllAt(end.pieces, |r.pieces|);
    TrimKeepsCommas(s[r.start..i]);
  }

  /** The first comma cut by only one of two markings makes a piece differ. */
  lemma {:induction false} DifferentCutsDiffer(s: string, m: seq<bool>, m': seq<bool>, i: nat) returns (k: nat)
    requires |m| == |m'| == |s| && i < |s| && s[i] == ','
    requires m[i] != m'[i] && forall j :: 0 <= j < i ==> m[j] == m'[j]
    ensures k < |TrimmedSplit(s, m)| && k < |TrimmedSplit(s, m')|
    ensures TrimmedSplit(s, m)[k] != TrimmedSplit(s, m')[k]
  {
    SameMarksSameScan(s, m, m', i);
    k := |ScanTo(s, m, i).pieces|;
    if m[i] {
      CutCommaEnds(s, m, i);
      UncutCommaStays(s, m', i);
    } else {
      UncutCommaStays(s, m, i);
      CutCommaEnds(s, m', i);
    }
  }

  lemma {:induction false} FirstDifference(m: seq<bool>, m': seq<bool>) returns (i: nat)
    requires |m| == |m'| && m != m'
    ensures i < |m| && m[i] != m'[i] && forall j :: 0 <= j < i ==> m[j] == m'[j]
  {
    if m[0] != m'[0] {
      i := 0;
    } else {
      assert m == [m[0]] + m[1..] && m' == [m'[0]] + m'[1..];
      var k := FirstDifference(m[1..], m'[1..]);
      i := k + 1;
      forall j | 0 <= j < i ensures m[j] == m'[j] {
        assert j > 0 ==> m[1..][j - 1] == m'[1..][j - 1];
      }
    }
  }

  lemma {:induction false} AgreeIffSameCuts(s: string)
    ensures Agree(s) <==> CutMarks(s, ',') == ReturnMarks(s)
  {
    var m, m' := CutMarks(s, ','), ReturnMarks(s);
    TrimmingASplit(s, m);
    if m != m' {
      var i := FirstDifference(m, m');
      assert s[i] == ',';
      var k := DifferentCutsDiffer(s, m, m', i);
      assert TrimAll(Split(s, m))[k] == TrimmedSplit(s, m)[k];
    }
  }

  /** The raw depth of one kind of bracket is as low as it has been in any prefix. */
  predicate AtLowest(s: string, open: char, close: char) {
    Raw(s, open, close) == Lowest(s, open, close)
  }

  /** Every depth is at its lowest, so that `splitTopLevel` takes `s` to end outside all brackets. */
  predicate AllAtLowest(s: string) {
    AtLowest(s, '<', '>') && AtLowest(s, '(', ')') && AtLowest(s, '{', '}')
  }

  lemma {:induction false} CutAtCommaIff(s: string, i: nat)
    requires i < |s| && s[i] == ','
    ensures Cut(s, ',', i) <==> AllAtLowest(s[..i])
  {
    ClampedStep(s, i, '<', '>');
    ClampedStep(s, i, '(', ')');
    ClampedStep(s, i, '{', '}');
    ClampedIsRawAboveLowest(s[..i], '<', '>');
    ClampedIsRawAboveLowest(s[..i], '(', ')');
    ClampedIsRawAboveLowest(s[..i], '{', '}');
  }

  /**
   The splitters agree on a text exactly when before every comma all three depths are at their lowest
   if and only if the angle and round depths sum to zero.
   */
  lemma {:induction false} SplittersAgreeExactlyWhen(s: string)
    ensures Agree(s) <==>
            forall i :: 0 <= i < |s| && s[i] == ',' ==> (AllAtLowest(s[..i]) <==> ReturnDepth(s[..i]) == 0)
  {
    AgreeIffSameCuts(s);
    forall i: nat | i < |s| && s[i] == ',' ensures CutMarks(s, ',')[i] <==> AllAtLowest(s[..i]) {
      CutAtCommaIff(s, i);
    }
    forall i: nat | i < |s| && s[i] == ',' ensures ReturnMarks(s)[i] <==> ReturnDepth(s[..i]) == 0 {
    }
    if forall i :: 0 <= i < |s| && s[i] == ',' ==> (AllAtLowest(s[..i]) <==> ReturnDepth(s[..i]) == 0) {
      forall i: nat | i < |s| ensures CutMarks(s, ',')[i] == ReturnMarks(s)[i] {
        assert s[i] != ',' ==> !Cut(s, ',', i) && !ReturnCut(s, i);
      }
    }
  }

  /** No braces, and no prefix closes more of either kind than it opened. */
  ghost predicate Tame(s: string) {
    && '{' !in s && '}' !in s
    && forall n :: 0 <= n <= |s| ==> Raw(s[..n], '<', '>') >= 0 && Raw(s[..n], '(', ')') >= 0
  }

  lemma {:induction false} NeverBelowIsLowestZero(s: string, open: char, close: char)
    requires forall n :: 0 <= n <= |s| ==> Raw(s[..n], open, close) >= 0
    ensures Lowest(s, open, close) == 0
  {
    if s != "" {
      assert s[..|s|] == s;
      var front := s[..|s| - 1];
      forall n | 0 <= n <= |front| ensures Raw(front[..n], open, close) >= 0 {
        assert front[..n] == s[..n];
      }
      NeverBelowIsLowestZero(s[..|s| - 1], open, close);
    }
  }

  lemma {:induction false} NoBracketsNoDepth(s: string, open: char, close: char)
    requires open !in s && close !in s
    ensures Raw(s, open, close) == Lowest(s, open, close) == 0
  {
    if s != "" {
      NoBracketsNoDepth(s[..|s| - 1], open, close);
    }
  }

  /** On tame text the two splitters agree. */
  lemma {:induction false} SplittersAgree(s: string)
    requires Tame(s)
    ensures Agree(s)
  {
    forall i: nat | i < |s| && s[i] == ',' ensures AllAtLowest(s[..i]) <==> ReturnDepth(s[..i]) == 0 {
      forall n | 0 <= n <= i ensures Raw(s[..i][..n], '<', '>') >= 0 && Raw(s[..i][..n], '(', ')') >= 0 {
        assert s[..i][..n] == s[..n];
      }
      NeverBelowIsLowestZero(s[..i], '<', '>');
      NeverBelowIsLowestZero(s[..i], '(', ')');
      NoBracketsNoDepth(s[..i], '{', '}');
    }
    SplittersAgreeExactlyWhen(s);
  }

  lemma {:induction false} DepthsOfOne(c: char, open: char, close: char)
    requires open != close
    ensures Raw([c], open, close) == if c == open then 1 else if c == close then -1 else 0
    ensures AtLowest([c], open, close) <==> c != open
  {
    assert [c][..|[c]| - 1] == "";
    assert Lowest([c], open, close) == if Raw([c], open, close) < 0 then Raw([c], open, close) else 0;
  }

  lemma {:induction false} AgreeAfterOne(c: char, rest: string)
    requires Agree([c, ','] + rest)
    ensures c != '>' && c != ')' && c != '{'
  {
    var s := [c, ','] + rest;
    assert s[..1] == [c] && s[1] == ',';
    SplittersAgreeExactlyWhen(s);
    DepthsOfOne(c, '<', '>');
    DepthsOfOne(c, '(', ')');
    DepthsOfOne(c, '{', '}');
  }

  /** A stray close before a comma, or a comma right inside a brace, makes them differ, whatever follows. */
  lemma {:induction false} SplittersDiffer(rest: string)
    ensures !Agree(">," + rest) && !Agree(")," + rest) && !Agree("{," + rest)
  {
    forall c | Agree([c, ','] + rest) ensures c != '>' && c != ')' && c != '{' {
      AgreeAfterOne(c, rest);
    }
    assert ">," == ['>', ','] && ")," == [')', ','] && "{," == ['{', ','];
  }

  // ---- extractBalancedBody ----

  function Level(s: string): int {
    Raw(s, '{', '}')
  }

  /** The brace that opened just before `start` is closed at `e` or earlier. */
  predicate Closed(input: string, start: nat, e: nat)
    requires start <= e < |input|
  {
    1 + Level(input[start..e + 1]) <= 0
  }

  /** `e` is the first position that closes it. */
  ghost predicate FirstClose(input: string, start: nat, e: nat) {
    && start <= e < |input| && Closed(input, start, e)
    && forall k :: start <= k < e ==> !Closed(input, start, k)
  }

  /** Braces match: the level never falls below zero and ends there. */
  ghost predicate Balanced(s: string) {
    Level(s) == 0 && forall n :: 0 <= n <= |s| ==> Level(s[..n]) >= 0
  }

  method ExtractBalancedBody(input: string, start: nat) returns (body: Option<string>)
    ensures body.Some? <==> exists e: nat :: start <= e < |input| && Closed(input, start, e)
    ensures body.Some? ==> exists e: nat :: FirstClose(input, start, e) && body.value == input[start..e]
  {
    var depth := 1;
    var i := start;
    while i < |input|
      invariant start <= i && (start <= |input| ==> i <= |input|)
      invariant start <= |input| ==> depth == 1 + Level(input[start..i])
      invariant depth > 0 && forall k :: start <= k < i && k < |input| ==> !Closed(input, start, k)
    {
      assert input[start..i + 1][..|input[start..i + 1]| - 1] == input[start..i];
      if input[i] == '{' {
        depth := depth + 1;
      } else if input[i] == '}' {
        depth := depth - 1;
        if depth == 0 {
          assert FirstClose(input, start, i);
          return Some(input[start..i]);
        }
      }
      i := i + 1;
    }
    return None;
  }

  /** The extracted text is balanced. */
  lemma {:induction false} ExtractedBodyIsBalanced(input: string, start: nat, e: nat)
    requires FirstClose(input, start, e)
    ensures Balanced(input[start..e]) && input[e] == '}'
  {
    var body := input[start..e];
    assert input[start..e + 1][..|input[start..e + 1]| - 1] == body;
    forall n | 0 <= n <= |body| ensures Level(body[..n]) >= 0 {
      assert body[..n] == input[start..start + n];
      if n > 0 {
        assert !Closed(input, start, start + n - 1);
      }
    }
    assert body[..|body|] == body;
  }

  /** Wrapping a balanced text in braces and extracting gives the text back, whatever follows. */
  lemma {:induction false} ExtractionRoundTrip(b: string, rest: string, e: nat)
    requires Balanced(b)
    ensures var input := "{" + b + "}" + rest;
            FirstClose(input, 1, e) <==> e == 1 + |b|
    ensures ("{" + b + "}" + rest)[1..1 + |b|] == b
  {
    var input := "{" + b + "}" + rest;
    var close := 1 + |b|;
    assert input[1..close] == b;
    assert input[1..close + 1] == b + "}";
    assert (b + "}")[..|b + "}"| - 1] == b;
    assert Closed(input, 1, close);
    forall k | 1 <= k < close ensures !Closed(input, 1, k) {
      assert input[1..k + 1] == b[..k];
    }
    assert FirstClose(input, 1, close);
  }
}
