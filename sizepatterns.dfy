/** The three regular expressions of the Lamoda scrapers, written out as
    scanners: `(\d+(?:[.,]\d+)?)\s*EUR`, the same with RUS under
    `re.IGNORECASE` (both through `re.search`), and `re.sub(r"img\d+x\d+",
    "img600x866", src)`. `\d` is an ASCII digit and `\s` a character for
    which `str.isspace()` holds. */
module SizePatterns {
  import opened Maybe
  import opened Text

  /** The end of the run of digits starting at `i`. */
  function DigitsEnd(s: string, i: nat): (j: nat)
    requires i <= |s|
    ensures i <= j <= |s|
    ensures j == |s| || !IsDigit(s[j])
    decreases |s| - i
  {
    if i < |s| && IsDigit(s[i]) then DigitsEnd(s, i + 1) else i
  }

  /** The end of the run of whitespace starting at `i`. */
  function SpacesEnd(s: string, i: nat): (j: nat)
    requires i <= |s|
    ensures i <= j <= |s|
    ensures j == |s| || !IsSpace(s[j])
    decreases |s| - i
  {
    if i < |s| && IsSpace(s[i]) then SpacesEnd(s, i + 1) else i
  }

  /** Everything the runs pass over is a digit, respectively whitespace. */
  lemma {:induction false} DigitsEndRun(s: string, i: nat)
    requires i <= |s|
    ensures forall x :: i <= x < DigitsEnd(s, i) ==> IsDigit(s[x])
    decreases |s| - i
  {
    if i < |s| && IsDigit(s[i]) {
      DigitsEndRun(s, i + 1);
    }
  }

  lemma {:induction false} SpacesEndRun(s: string, i: nat)
    requires i <= |s|
    ensures forall x :: i <= x < SpacesEnd(s, i) ==> IsSpace(s[x])
    decreases |s| - i
  {
    if i < |s| && IsSpace(s[i]) {
      SpacesEndRun(s, i + 1);
    }
  }

  /** The two runs are maximal, so any run that stops where they stop is theirs. */
  lemma {:induction false} DigitsEndIs(s: string, a: nat, b: nat)
    requires a <= b <= |s|
    requires forall x :: a <= x < b ==> IsDigit(s[x])
    requires b == |s| || !IsDigit(s[b])
    ensures DigitsEnd(s, a) == b
    decreases b - a
  {
    if a < b {
      DigitsEndIs(s, a + 1, b);
    }
  }

  lemma {:induction false} SpacesEndIs(s: string, a: nat, b: nat)
    requires a <= b <= |s|
    requires forall x :: a <= x < b ==> IsSpace(s[x])
    requires b == |s| || !IsSpace(s[b])
    ensures SpacesEnd(s, a) == b
    decreases b - a
  {
    if a < b {
      SpacesEndIs(s, a + 1, b);
    }
  }

  predicate IsSeparator(c: char) {
    c == '.' || c == ','
  }

  /** `t` is digits, the separator at `p`, and digits. */
  predicate FractionAt(t: string, p: nat) {
    0 < p < |t| - 1 && IsSeparator(t[p]) && AllDigits(t[..p]) && AllDigits(t[p + 1..])
  }

  /** `t` has the shape `\d+(?:[.,]\d+)?`. */
  ghost predicate IsNumberText(t: string) {
    (|t| > 0 && AllDigits(t)) || exists p: nat :: FractionAt(t, p)
  }

  /** A letter of the unit. Under IGNORECASE an ASCII letter also matches
      its other case, and 's' also matches U+017F (long s), as in Python. */
  predicate UnitChar(c: char, u: char, ignoreCase: bool) {
    c == u || (ignoreCase && (LowerChar(c) == LowerChar(u) || (LowerChar(u) == 's' && c == '\U{17F}')))
  }

  predicate UnitAt(s: string, m: nat, unit: string, ignoreCase: bool) {
    m + |unit| <= |s| && forall x :: 0 <= x < |unit| ==> UnitChar(s[m + x], unit[x], ignoreCase)
  }

  /** Units this module is used with: upper-case ASCII words such as "EUR"
      and "RUS". */
  predicate IsUnit(unit: string) {
    unit != [] && forall x :: 0 <= x < |unit| ==> 'A' <= unit[x] <= 'Z'
  }

  /** The reference meaning of the pattern: it matches at `i` with group
      `s[i..k]` when that is a number, `s[k..m]` is whitespace and the unit
      follows at `m`. */
  ghost predicate Matches(s: string, unit: string, ignoreCase: bool, i: nat, k: nat, m: nat) {
    && i <= k <= m <= |s|
    && IsNumberText(s[i..k])
    && (forall x :: k <= x < m ==> IsSpace(s[x]))
    && UnitAt(s, m, unit, ignoreCase)
  }

  /** The end of `\d+(?:[.,]\d+)?` from the digit at `i`: the fraction is
      taken whenever a separator and a digit follow the whole part. */
  function NumberEnd(s: string, i: nat): (k: nat)
    requires i < |s| && IsDigit(s[i])
    ensures i < k <= |s|
  {
    var j := DigitsEnd(s, i);
    if j + 1 < |s| && IsSeparator(s[j]) && IsDigit(s[j + 1]) then DigitsEnd(s, j + 1) else j
  }

  /** The attempt of the regular expression at position `i`: the end of the
      group when it matches there. */
  function MatchAt(s: string, unit: string, ignoreCase: bool, i: nat): Option<nat>
    requires i <= |s|
  {
    if i < |s| && IsDigit(s[i]) then
      var k := NumberEnd(s, i);
      if UnitAt(s, SpacesEnd(s, k), unit, ignoreCase) then Some(k) else None
    else None
  }

  /** `re.search` from position `i` on: the first position with a match. */
  function SearchFrom(s: string, unit: string, ignoreCase: bool, i: nat): (r: Option<(nat, nat)>)
    requires i <= |s|
    ensures r.Some? ==> i <= r.value.0 < r.value.1 <= |s|
    decreases |s| - i
  {
    if i == |s| then None
    else match MatchAt(s, unit, ignoreCase, i)
      case Some(k) => Some((i, k))
      case None => SearchFrom(s, unit, ignoreCase, i + 1)
  }

  /** `re.search(pattern, s).group(1)`, None when there is no match. */
  function Search(s: string, unit: string, ignoreCase: bool): Option<string> {
    match SearchFrom(s, unit, ignoreCase, 0)
    case None => None
    case Some((i, k)) => Some(s[i..k])
  }

  lemma DigitsSlice(s: string, a: nat, b: nat)
    requires a <= b <= |s| && forall x :: a <= x < b ==> IsDigit(s[x])
    ensures AllDigits(s[a..b])
  {
    forall x | 0 <= x < b - a ensures IsDigit(s[a..b][x]) {
      assert s[a..b][x] == s[a + x];
    }
  }

  /** The scanner's number is a number. */
  lemma NumberEndShape(s: string, i: nat)
    requires i < |s| && IsDigit(s[i])
    ensures IsNumberText(s[i..NumberEnd(s, i)])
  {
    var j := DigitsEnd(s, i);
    var k := NumberEnd(s, i);
    var t := s[i..k];
    DigitsEndRun(s, i);
    if k != j {
      DigitsEndRun(s, j + 1);
      var p := j - i;
      assert t[..p] == s[i..j];
      assert t[p + 1..] == s[j + 1..k];
      DigitsSlice(s, i, j);
      DigitsSlice(s, j + 1, k);
      assert t[p] == s[j];
      assert FractionAt(t, p);
    } else {
      DigitsSlice(s, i, k);
    }
  }

  /** What the scanner finds is a match of the pattern. */
  lemma MatchAtSound(s: string, unit: string, ignoreCase: bool, i: nat)
    requires i <= |s| && MatchAt(s, unit, ignoreCase, i).Some?
    ensures var k := MatchAt(s, unit, ignoreCase, i).value;
      Matches(s, unit, ignoreCase, i, k, SpacesEnd(s, k))
  {
    NumberEndShape(s, i);
    SpacesEndRun(s, MatchAt(s, unit, ignoreCase, i).value);
  }

  /** A letter of the unit is neither a digit, a separator nor whitespace. */
  lemma UnitCharIsLetter(c: char, u: char, ignoreCase: bool)
    requires 'A' <= u <= 'Z' && UnitChar(c, u, ignoreCase)
    ensures !IsDigit(c) && !IsSeparator(c) && !IsSpace(c)
  {
  }

  /** A run of digits of `t` placed at `i` in `s` is a run of `s`. */
  lemma DigitsPlaced(s: string, i: nat, t: string, a: nat, b: nat)
    requires i + |t| <= |s| && t == s[i..i + |t|]
    requires a <= b <= |t| && AllDigits(t[a..b])
    ensures forall x :: i + a <= x < i + b ==> IsDigit(s[x])
  {
    forall x | i + a <= x < i + b ensures IsDigit(s[x]) {
      assert s[x] == t[a..b][x - i - a];
    }
  }

  /** The fractional case of `NumberEndIs`. */
  lemma FractionEndIs(s: string, i: nat, k: nat, p: nat)
    requires i <= k < |s| && FractionAt(s[i..k], p)
    requires !IsDigit(s[k])
    ensures IsDigit(s[i]) && NumberEnd(s, i) == k
  {
    var t := s[i..k];
    assert t[0..p] == t[..p];
    DigitsPlaced(s, i, t, 0, p);
    assert t[p + 1..|t|] == t[p + 1..];
    DigitsPlaced(s, i, t, p + 1, |t|);
    assert s[i + p] == t[p];
    DigitsEndIs(s, i, i + p);
    DigitsEndIs(s, i + p + 1, k);
  }

  /** A number followed by a character that cannot continue it is what the
      scanner reads from its first digit. */
  lemma NumberEndIs(s: string, i: nat, k: nat)
    requires i <= k < |s| && IsNumberText(s[i..k])
    requires !IsDigit(s[k]) && !IsSeparator(s[k])
    ensures IsDigit(s[i]) && NumberEnd(s, i) == k
  {
    var t := s[i..k];
    if |t| > 0 && AllDigits(t) {
      assert t[0..|t|] == t;
      DigitsPlaced(s, i, t, 0, |t|);
      DigitsEndIs(s, i, k);
    } else {
      var p: nat :| FractionAt(t, p);
      FractionEndIs(s, i, k, p);
    }
  }

  /** Every match at `i` is the one the scanner finds there: the group and
      the whitespace are determined by `i`. */
  lemma MatchAtComplete(s: string, unit: string, ignoreCase: bool, i: nat, k: nat, m: nat)
    requires IsUnit(unit) && Matches(s, unit, ignoreCase, i, k, m)
    ensures MatchAt(s, unit, ignoreCase, i) == Some(k) && m == SpacesEnd(s, k)
  {
    assert UnitChar(s[m], unit[0], ignoreCase);
    UnitCharIsLetter(s[m], unit[0], ignoreCase);
    // s[k] ends the number: it is whitespace or the unit's first letter
    assert k < |s| && !IsDigit(s[k]) && !IsSeparator(s[k]) by {
      if k < m {
        assert IsSpace(s[k]);
      }
    }
    SpacesEndIs(s, k, m);
    NumberEndIs(s, i, k);
  }

  /** Scanning from `i` finds the first matching position at or after `i`. */
  lemma {:induction false} SearchFromSound(s: string, unit: string, ignoreCase: bool, i: nat)
    requires i <= |s| && SearchFrom(s, unit, ignoreCase, i).Some?
    ensures var r := SearchFrom(s, unit, ignoreCase, i).value;
      MatchAt(s, unit, ignoreCase, r.0) == Some(r.1)
    ensures forall b :: i <= b < SearchFrom(s, unit, ignoreCase, i).value.0 ==> MatchAt(s, unit, ignoreCase, b).None?
    decreases |s| - i
  {
    var here := MatchAt(s, unit, ignoreCase, i);
    if here.None? {
      assert SearchFrom(s, unit, ignoreCase, i) == SearchFrom(s, unit, ignoreCase, i + 1);
      SearchFromSound(s, unit, ignoreCase, i + 1);
    }
  }

  /** Scanning from `i` finds nothing only when no position from `i` on matches. */
  lemma {:induction false} SearchFromNone(s: string, unit: string, ignoreCase: bool, i: nat)
    requires i <= |s| && SearchFrom(s, unit, ignoreCase, i).None?
    ensures forall b :: i <= b <= |s| ==> MatchAt(s, unit, ignoreCase, b).None?
    decreases |s| - i
  {
    if i < |s| {
      SearchFromNone(s, unit, ignoreCase, i + 1);
    }
  }

  /** `re.search` gives no group exactly when the pattern matches nowhere. */
  lemma SearchNone(s: string, unit: string, ignoreCase: bool)
    requires IsUnit(unit)
    ensures Search(s, unit, ignoreCase).None? <==>
      forall i: nat, k: nat, m: nat :: !Matches(s, unit, ignoreCase, i, k, m)
  {
    if Search(s, unit, ignoreCase).None? {
      SearchFromNone(s, unit, ignoreCase, 0);
      forall i: nat, k: nat, m: nat | Matches(s, unit, ignoreCase, i, k, m)
        ensures false
      {
        MatchAtComplete(s, unit, ignoreCase, i, k, m);
      }
    } else {
      var (a, k) := SearchFrom(s, unit, ignoreCase, 0).value;
      SearchFromSound(s, unit, ignoreCase, 0);
      MatchAtSound(s, unit, ignoreCase, a);
    }
  }

  /** The group `re.search` returns is the group of the leftmost match. */
  lemma SearchSome(s: string, unit: string, ignoreCase: bool) returns (i: nat, k: nat, m: nat)
    requires IsUnit(unit) && Search(s, unit, ignoreCase).Some?
    ensures Matches(s, unit, ignoreCase, i, k, m)
    ensures Search(s, unit, ignoreCase) == Some(s[i..k])
    ensures forall i': nat, k': nat, m': nat :: Matches(s, unit, ignoreCase, i', k', m') ==>
      i <= i' && (i' == i ==> k' == k)
  {
    var r := SearchFrom(s, unit, ignoreCase, 0).value;
    i, k := r.0, r.1;
    SearchFromSound(s, unit, ignoreCase, 0);
    MatchAtSound(s, unit, ignoreCase, i);
    m := SpacesEnd(s, k);
    forall i': nat, k': nat, m': nat | Matches(s, unit, ignoreCase, i', k', m')
      ensures i <= i' && (i' == i ==> k' == k)
    {
      MatchAtComplete(s, unit, ignoreCase, i', k', m');
    }
  }

  /** `re.search(r"(\d+(?:[.,]\d+)?)\s*EUR", text)`. */
  function EurSize(text: string): Option<string> {
    Search(text, "EUR", false)
  }

  /** `re.search(r"(\d+(?:[.,]\d+)?)\s*RUS", text, re.IGNORECASE)`. */
  function RusSize(text: string): Option<string> {
    Search(text, "RUS", true)
  }

  /** The resolution every image url is rewritten to. */
  const Resolution: string := "img" + "600" + "x" + "866"

  lemma ResolutionText()
    ensures Resolution == "img600x866"
  {
  }

  /** "img", digits, 'x' and a digit, from position 0 of `t`; `j` is the
      position of the 'x'. */
  predicate ImgAt(t: string, j: nat) {
    && 3 < j && j + 1 < |t|
    && t[..3] == "img"
    && (forall x :: 3 <= x < j ==> IsDigit(t[x]))
    && t[j] == 'x' && IsDigit(t[j + 1])
  }

  /** `img\d+x\d+` tried at the start of `t`: the end of the match. */
  function ImgMatch(t: string): (r: Option<nat>)
    ensures r.Some? ==> 6 <= r.value <= |t| && ImgAt(t, DigitsEnd(t, 3))
    ensures r.Some? ==> DigitsEnd(t, 3) + 1 < r.value
    ensures r.Some? ==> forall x :: DigitsEnd(t, 3) < x < r.value ==> IsDigit(t[x])
    ensures r.Some? ==> r.value == |t| || !IsDigit(t[r.value])
  {
    if |t| >= 3 && t[..3] == "img" then
      var j := DigitsEnd(t, 3);
      DigitsEndRun(t, 3);
      if j > 3 && j + 1 < |t| && t[j] == 'x' && IsDigit(t[j + 1]) then
        DigitsEndRun(t, j + 1);
        Some(DigitsEnd(t, j + 1))
      else None
    else None
  }

  lemma ImgAtMatch(t: string, j: nat)
    requires ImgAt(t, j)
    ensures ImgMatch(t).Some?
  {
    DigitsEndIs(t, 3, j);
  }

  /** `re.sub(r"img\d+x\d+", "img600x866", t)`: left to right, each match is
      replaced and scanning resumes after it. */
  function ResizeImage(t: string): string
    decreases |t|
  {
    if t == [] then []
    else match ImgMatch(t)
      case Some(k) => Resolution + ResizeImage(t[k..])
      case None => [t[0]] + ResizeImage(t[1..])
  }

  /** The first character survives the rewrite. */
  lemma ResizeImageHead(t: string)
    requires t != []
    ensures ResizeImage(t) != [] && ResizeImage(t)[0] == t[0]
  {
  }

  /** A character other than 'i' cannot start a match. */
  lemma ResizeImageStep(t: string)
    requires t != [] && t[0] != 'i'
    ensures ResizeImage(t) == [t[0]] + ResizeImage(t[1..])
  {
    assert ImgMatch(t).None? by {
      if |t| >= 3 {
        assert t[..3][0] == t[0];
      }
    }
  }

  lemma ConsConcat(a: string, w: string)
    requires a != []
    ensures (a + w)[0] == a[0] && (a + w)[1..] == a[1..] + w
    ensures [a[0]] + (a[1..] + w) == a + w
  {
    assert a == [a[0]] + a[1..];
  }

  /** A prefix without 'i' cannot start a match and is copied as it is. */
  lemma {:induction false} ResizeImageKeeps(a: string, b: string)
    requires 'i' !in a
    ensures ResizeImage(a + b) == a + ResizeImage(b)
  {
    if a == [] {
      assert a + b == b;
    } else {
      ConsConcat(a, b);
      ResizeImageStep(a + b);
      ResizeImageKeeps(a[1..], b);
      ConsConcat(a, ResizeImage(b));
    }
  }

  /** The first step of `ResizeImageCopied`: the head was copied and the
      rest of the output still shows no 'i' for `n - 1` characters. */
  lemma ResizeImageCopiedHead(v: string, n: nat)
    requires 0 < n <= |ResizeImage(v)| && forall x :: 0 <= x < n ==> ResizeImage(v)[x] != 'i'
    ensures v != [] && ResizeImage(v) == [v[0]] + ResizeImage(v[1..])
    ensures n - 1 <= |ResizeImage(v[1..])| && forall x :: 0 <= x < n - 1 ==> ResizeImage(v[1..])[x] != 'i'
  {
    assert v != [];
    ResizeImageHead(v);
    ResizeImageStep(v);
    var u := ResizeImage(v[1..]);
    forall x | 0 <= x < n - 1 ensures u[x] != 'i' {
      assert u[x] == ResizeImage(v)[x + 1];
    }
  }

  lemma PrependSlices(v: string, n: nat, w: string)
    requires 0 < n <= |v|
    ensures v[1..][n - 1..] == v[n..]
    ensures [v[0]] + (v[1..][..n - 1] + w) == v[..n] + w
  {
    assert v[..n] == [v[0]] + v[1..][..n - 1];
  }

  /** Conversely, while the output shows no 'i', the input was copied. */
  lemma {:induction false} ResizeImageCopied(v: string, n: nat)
    requires n <= |ResizeImage(v)| && forall x :: 0 <= x < n ==> ResizeImage(v)[x] != 'i'
    ensures n <= |v| && ResizeImage(v) == v[..n] + ResizeImage(v[n..])
  {
    if n > 0 {
      ResizeImageCopiedHead(v, n);
      ResizeImageCopied(v[1..], n - 1);
      PrependSlices(v, n, ResizeImage(v[n..]));
    }
  }

  /** An output that starts with the replacement is rewritten to itself. */
  lemma ResizeImageResolution(u: string)
    requires u == [] || !IsDigit(u[0])
    ensures ResizeImage(Resolution + u) == Resolution + ResizeImage(u)
  {
    ImgMatchField("600", "866", u);
    assert (Resolution + u)[10..] == u;
  }

  /** After its first character a match holds no 'i'. */
  lemma ImgAtNoI(w: string, j: nat)
    requires ImgAt(w, j)
    ensures forall x :: 1 <= x < j + 2 ==> w[x] != 'i'
  {
    forall x | 1 <= x < j + 2 ensures w[x] != 'i' {
      if x < 3 {
        assert w[x] == w[..3][x];
      }
    }
  }

  /** A match depends only on its own characters. */
  lemma ImgAtSame(t: string, w: string, j: nat)
    requires ImgAt(w, j) && j + 2 <= |t|
    requires forall x :: 0 <= x < j + 2 ==> t[x] == w[x]
    ensures ImgAt(t, j)
  {
    assert t[..3] == w[..3];
  }

  /** While the rewritten tail shows no 'i', it agrees with the input. */
  lemma CopiedPrefixAgrees(t: string, j: nat)
    requires t != []
    requires j + 2 <= |[t[0]] + ResizeImage(t[1..])|
    requires forall x :: 1 <= x < j + 2 ==> ([t[0]] + ResizeImage(t[1..]))[x] != 'i'
    ensures j + 2 <= |t| && forall x :: 0 <= x < j + 2 ==> t[x] == ([t[0]] + ResizeImage(t[1..]))[x]
  {
    var v := ResizeImage(t[1..]);
    var w := [t[0]] + v;
    assert forall x :: 0 <= x < j + 1 ==> v[x] != 'i' by {
      forall x | 0 <= x < j + 1 ensures v[x] != 'i' {
        assert v[x] == w[x + 1];
      }
    }
    ResizeImageCopied(t[1..], j + 1);
    forall x | 0 <= x < j + 2 ensures t[x] == w[x] {
      if x > 0 {
        assert t[x] == t[1..][..j + 1][x - 1];
      }
    }
  }

  /** A copied first character cannot become the start of a match. */
  lemma ResizeImageNoNewMatch(t: string)
    requires t != [] && ImgMatch(t).None?
    ensures ImgMatch([t[0]] + ResizeImage(t[1..])).None?
  {
    var w := [t[0]] + ResizeImage(t[1..]);
    if ImgMatch(w).Some? {
      var j := DigitsEnd(w, 3);
      ImgAtNoI(w, j);
      CopiedPrefixAgrees(t, j);
      ImgAtSame(t, w, j);
      ImgAtMatch(t, j);
    }
  }

  /** Rewriting twice is the same as rewriting once. */
  lemma {:induction false} ResizeImageIdempotent(t: string)
    ensures ResizeImage(ResizeImage(t)) == ResizeImage(t)
    decreases |t|
  {
    if t != [] {
      match ImgMatch(t)
      case Some(k) =>
        var u := ResizeImage(t[k..]);
        if t[k..] != [] {
          ResizeImageHead(t[k..]);
        }
        ResizeImageResolution(u);
        ResizeImageIdempotent(t[k..]);
      case None =>
        ResizeImageNoNewMatch(t);
        var w := [t[0]] + ResizeImage(t[1..]);
        assert w[1..] == ResizeImage(t[1..]);
        ResizeImageIdempotent(t[1..]);
    }
  }

  /** A url without "img" is left as it is. */
  lemma {:induction false} ResizeImageUnchanged(t: string)
    requires !Contains(t, "img")
    ensures ResizeImage(t) == t
    decreases |t|
  {
    if t != [] {
      assert !StartsWith(t, "img");
      ResizeImageUnchanged(t[1..]);
    }
  }

  lemma ImgMatchField(w: string, h: string, c: string)
    requires w != [] && AllDigits(w) && h != [] && AllDigits(h)
    requires c == [] || !IsDigit(c[0])
    ensures ImgMatch("img" + w + "x" + h + c) == Some(4 + |w| + |h|)
  {
    var t := "img" + w + "x" + h + c;
    var j := 3 + |w|;
    var k := j + 1 + |h|;
    assert t[..3] == "img" && t[j] == 'x' && t[j + 1] == h[0];
    assert forall x :: 3 <= x < j ==> IsDigit(t[x]) by {
      forall x | 3 <= x < j ensures IsDigit(t[x]) {
        assert t[x] == w[x - 3];
      }
    }
    DigitsEndIs(t, 3, j);
    assert forall x :: j + 1 <= x < k ==> IsDigit(t[x]) by {
      forall x | j + 1 <= x < k ensures IsDigit(t[x]) {
        assert t[x] == h[x - j - 1];
      }
    }
    assert k == |t| || t[k] == c[0];
    DigitsEndIs(t, j + 1, k);
  }

  /** A match that starts in `a` cannot reach a following 'i': it ends
      inside `a`, and `a` alone matches there too. */
  lemma MatchWithin(a: string, t: string)
    requires a != [] && (t == [] || t[0] == 'i')
    requires ImgMatch(a + t).Some?
    ensures ImgMatch(a + t).value <= |a| && ImgMatch(a) == ImgMatch(a + t)
  {
    var s := a + t;
    var j := DigitsEnd(s, 3);
    var k := ImgMatch(s).value;
    DigitsEndRun(s, 3);
    DigitsEndRun(s, j + 1);
    assert s[1] == s[..3][1] && s[2] == s[..3][2];
    if t != [] {
      assert s[|a|] == 'i';
    }
    assert k <= |a|;
    assert a[..3] == s[..3];
    assert forall x :: 3 <= x < j ==> IsDigit(a[x]) by {
      forall x | 3 <= x < j ensures IsDigit(a[x]) {
        assert a[x] == s[x];
      }
    }
    assert a[j] == s[j];
    DigitsEndIs(a, 3, j);
    assert forall x :: j + 1 <= x < k ==> IsDigit(a[x]) by {
      forall x | j + 1 <= x < k ensures IsDigit(a[x]) {
        assert a[x] == s[x];
      }
    }
    assert k < |a| ==> a[k] == s[k];
    DigitsEndIs(a, j + 1, k);
    assert a[j + 1] == s[j + 1];
  }

  /** A match at the start of `a` is one at the start of `a + t`. */
  lemma NoMatchPrefix(a: string, t: string)
    requires ImgMatch(a + t).None?
    ensures ImgMatch(a).None?
  {
    if ImgMatch(a).Some? {
      var j := DigitsEnd(a, 3);
      ImgAtSame(a + t, a, j);
      ImgAtMatch(a + t, j);
    }
  }

  /** The rewrite splits before any 'i': no match runs across it, so each
      side is rewritten on its own. */
  lemma {:induction false} ResizeImageSplit(a: string, t: string)
    requires t == [] || t[0] == 'i'
    ensures ResizeImage(a + t) == ResizeImage(a) + ResizeImage(t)
    decreases |a|
  {
    if a == [] {
      assert a + t == t;
    } else if ImgMatch(a + t).Some? {
      var k := ImgMatch(a + t).value;
      MatchWithin(a, t);
      MatchStep(a, t, k);
      ResizeImageMatch(a, k);
      ResizeImageSplit(a[k..], t);
      Regroup(Resolution, ResizeImage(a[k..]), ResizeImage(t), ResizeImage(a + t), ResizeImage(a), ResizeImage(a[k..] + t));
    } else {
      NoMatchPrefix(a, t);
      ResizeImageSplit(a[1..], t);
      SplitAfterCopy(a, t);
    }
  }

  /** Regrouping `r + (x + y)` as `(r + x) + y`, stated on names so that
      the solver need not look inside them. */
  lemma Regroup(r: string, x: string, y: string, whole: string, front: string, back: string)
    requires whole == r + back && back == x + y && front == r + x
    ensures whole == front + y
  {
  }

  /** Replacing a match at the start of `a + t` that ends inside `a`. */
  lemma MatchStep(a: string, t: string, k: nat)
    requires a != [] && k <= |a| && ImgMatch(a + t) == Some(k)
    ensures ResizeImage(a + t) == Resolution + ResizeImage(a[k..] + t)
  {
    assert (a + t)[k..] == a[k..] + t;
    ResizeImageMatch(a + t, k);
  }

  /** The step of `ResizeImageSplit` when the first character is copied. */
  lemma SplitAfterCopy(a: string, t: string)
    requires a != [] && ImgMatch(a).None? && ImgMatch(a + t).None?
    requires ResizeImage(a[1..] + t) == ResizeImage(a[1..]) + ResizeImage(t)
    ensures ResizeImage(a + t) == ResizeImage(a) + ResizeImage(t)
  {
    ConsConcat(a, t);
    calc {
      ResizeImage(a + t);
      { ResizeImageNoMatch(a + t); }
      [a[0]] + ResizeImage(a[1..] + t);
      [a[0]] + (ResizeImage(a[1..]) + ResizeImage(t));
      ([a[0]] + ResizeImage(a[1..])) + ResizeImage(t);
      { ResizeImageNoMatch(a); }
      ResizeImage(a) + ResizeImage(t);
    }
  }

  lemma ResizeImageMatch(t: string, k: nat)
    requires t != [] && ImgMatch(t) == Some(k)
    ensures ResizeImage(t) == Resolution + ResizeImage(t[k..])
  {
  }

  lemma ResizeImageNoMatch(t: string)
    requires t != [] && ImgMatch(t).None?
    ensures ResizeImage(t) == [t[0]] + ResizeImage(t[1..])
  {
  }

  /** A resolution "img<w>x<h>" becomes "img600x866", whatever its digits
      and wherever it stands; the text around it is rewritten on its own. */
  lemma ResizeImageResolutionField(a: string, w: string, h: string, c: string)
    requires w != [] && AllDigits(w) && h != [] && AllDigits(h)
    requires c == [] || !IsDigit(c[0])
    ensures ResizeImage(a + ("img" + w + "x" + h + c)) == ResizeImage(a) + (Resolution + ResizeImage(c))
  {
    var t := "img" + w + "x" + h + c;
    ResizeImageSplit(a, t);
    ImgMatchField(w, h, c);
    assert t[4 + |w| + |h|..] == c;
  }

  /** A url whose only 'i' starts its one resolution field: the field is
      replaced and everything else is kept. */
  lemma ResizeImageOneField(a: string, w: string, h: string, c: string)
    requires 'i' !in a && 'i' !in c
    requires w != [] && AllDigits(w) && h != [] && AllDigits(h)
    requires c == [] || !IsDigit(c[0])
    ensures ResizeImage(a + ("img" + w + "x" + h + c)) == a + (Resolution + c)
  {
    ResizeImageResolutionField(a, w, h, c);
    ResizeImageKeeps(a, []);
    ResizeImageKeeps(c, []);
    assert a + [] == a && c + [] == c;
  }

  /** A catalogue thumbnail url is turned into the large picture. */
  lemma ResizeImageExample()
    ensures ResizeImage("//a.lmcdn.ru/" + ("img" + "236" + "x" + "341" + "/M/P/MP002_1.jpg"))
      == "//a.lmcdn.ru/" + (Resolution + "/M/P/MP002_1.jpg")
  {
    ResizeImageOneField("//a.lmcdn.ru/", "236", "341", "/M/P/MP002_1.jpg");
  }
}
