/** C-string helpers shared by every part of the model: the result
    wrappers, StringBuffer::indexOf, `%zu` decimal formatting, the
    truncation rule of snprintf, and splitting on a separator.

    A C string is modelled as the characters before its terminator. */
module CStrings {

  datatype Option<+T> = None | Some(value: T)

  /** The three ways a routine of the firmware can end: it returns 0
      with a value, it returns 1, or one of its assert()s fires (or it
      breaks a buffer's contract), which stops the device. */
  datatype Outcome<+T> = Ok(value: T) | Failed | Faulted(reason: string)

  // ---------------------------------------------------------------
  // StringBuffer::indexOf

  /** `needle` occurs in `s` starting at offset `i`. */
  predicate OccursAt(s: seq<char>, needle: seq<char>, i: int)
  {
    0 <= i && i + |needle| <= |s| && s[i..i + |needle|] == needle
  }

  /** `needle` occurs at `i` and nowhere before it. */
  predicate First(s: seq<char>, needle: seq<char>, i: int)
  {
    OccursAt(s, needle, i) && forall j :: 0 <= j < i ==> !OccursAt(s, needle, j)
  }

  /** The first offset at or after `start` where `needle` occurs, or -1. */
  function IndexOf(s: seq<char>, needle: seq<char>, start: nat): (r: int)
    ensures r == -1 || (start <= r && OccursAt(s, needle, r))
    decreases |s| - start
  {
    if start + |needle| > |s| then -1
    else if s[start..start + |needle|] == needle then start
    else IndexOf(s, needle, start + 1)
  }

  /** The search finds the first occurrence at or after `start`, and
      reports -1 exactly when there is none. */
  lemma {:induction false} IndexOfSpec(s: seq<char>, needle: seq<char>, start: nat)
    ensures var r := IndexOf(s, needle, start);
      && (r != -1 ==> forall i :: start <= i < r ==> !OccursAt(s, needle, i))
      && (r == -1 <==> forall i :: start <= i ==> !OccursAt(s, needle, i))
    decreases |s| - start
  {
    if start + |needle| <= |s| && s[start..start + |needle|] != needle {
      IndexOfSpec(s, needle, start + 1);
    }
  }

  /** Searching from 0 finds an occurrence at offset `i` exactly when
      `i` is the first occurrence. */
  lemma IndexOfIsFirst(s: seq<char>, needle: seq<char>, i: nat)
    requires First(s, needle, i)
    ensures IndexOf(s, needle, 0) == i
  {
    IndexOfSpec(s, needle, 0);
  }

  /** A search from `start` stops at the first occurrence after it. */
  lemma IndexOfFrom(s: seq<char>, needle: seq<char>, start: nat, i: nat)
    requires start <= i && OccursAt(s, needle, i)
    requires forall j :: start <= j < i ==> !OccursAt(s, needle, j)
    ensures IndexOf(s, needle, start) == i
  {
    IndexOfSpec(s, needle, start);
  }

  /** No occurrence of `needle` lies inside `s`. */
  predicate Absent(s: seq<char>, needle: seq<char>)
  {
    forall i :: 0 <= i <= |s| ==> !OccursAt(s, needle, i)
  }

  lemma OccursWithin(s: seq<char>, needle: seq<char>, lo: nat, hi: nat, p: nat)
    requires lo <= p && p + |needle| <= hi <= |s|
    requires OccursAt(s, needle, p)
    ensures OccursAt(s[lo..hi], needle, p - lo)
  {
    var t := s[lo..hi];
    var a := p - lo;
    var u, v := t[a..a + |needle|], s[p..p + |needle|];
    forall k | 0 <= k < |needle|
      ensures u[k] == v[k]
    {
      assert t[a + k] == s[lo + a + k];
    }
    assert u == v;
  }

  /** A needle whose first character appears nowhere else in it cannot
      cover a position holding that character except by starting there. */
  lemma NoOccurrenceAcross(s: seq<char>, needle: seq<char>, p: nat, q: nat)
    requires |needle| > 0 && needle[0] !in needle[1..]
    requires p < q < p + |needle| && q < |s| && s[q] == needle[0]
    ensures !OccursAt(s, needle, p)
  {
  }

  /** No `;`-led marker starts inside a stretch of marker-free text that
      is followed by a `;` or by the end of the string. */
  lemma NoneStartsIn(s: seq<char>, needle: seq<char>, lo: nat, hi: nat)
    requires |needle| > 0 && needle[0] == ';' && ';' !in needle[1..]
    requires lo <= hi <= |s|
    requires Absent(s[lo..hi], needle)
    requires hi < |s| ==> s[hi] == ';'
    ensures forall p :: lo <= p < hi ==> !OccursAt(s, needle, p)
  {
    forall p | lo <= p < hi
      ensures !OccursAt(s, needle, p)
    {
      if p + |needle| <= hi {
        if OccursAt(s, needle, p) {
          OccursWithin(s, needle, lo, hi, p);
        }
      } else if hi < |s| {
        NoOccurrenceAcross(s, needle, p, hi);
      }
    }
  }

  /** No `;`-led marker starts inside a stretch without `;`. */
  lemma NoneStartsInPlain(s: seq<char>, needle: seq<char>, lo: nat, hi: nat)
    requires |needle| > 0 && needle[0] == ';'
    requires lo <= hi <= |s| && ';' !in s[lo..hi]
    ensures forall p :: lo <= p < hi ==> !OccursAt(s, needle, p)
  {
    forall p | lo <= p < hi
      ensures !OccursAt(s, needle, p)
    {
      assert s[lo..hi][p - lo] == s[p];
    }
  }

  // ---------------------------------------------------------------
  // Decimal formatting (`%zu`, `%lu`, `%d` of a non-negative value)

  function DigitChar(d: nat): char
    requires d < 10
  {
    "0123456789"[d]
  }

  predicate IsDigit(c: char)
  {
    '0' <= c <= '9'
  }

  function DigitValue(c: char): nat
    requires IsDigit(c)
  {
    (c as int - '0' as int) as nat
  }

  /** The decimal representation printf gives a non-negative integer. */
  function Decimal(n: nat): (r: seq<char>)
    ensures |r| > 0
    ensures forall i :: 0 <= i < |r| ==> IsDigit(r[i])
    ensures |r| > 1 ==> r[0] != '0'
  {
    if n < 10 then [DigitChar(n)] else Decimal(n / 10) + [DigitChar(n % 10)]
  }

  /** The number a string of decimal digits denotes. */
  function DecimalValue(s: seq<char>): nat
    requires forall i :: 0 <= i < |s| ==> IsDigit(s[i])
  {
    if |s| == 0 then 0 else 10 * DecimalValue(s[..|s| - 1]) + DigitValue(s[|s| - 1])
  }

  lemma {:induction false} DecimalRoundTrip(n: nat)
    ensures DecimalValue(Decimal(n)) == n
    decreases n
  {
    if n >= 10 {
      var r := Decimal(n);
      DecimalRoundTrip(n / 10);
      assert r[..|r| - 1] == Decimal(n / 10);
      assert DigitValue(r[|r| - 1]) == n % 10;
    }
  }

  // ---------------------------------------------------------------
  // snprintf(buffer, cap, ...)

  /** What snprintf leaves in a buffer of `cap` bytes (before the
      terminator) when the fully formatted text is `text`; its return
      value is always |text|. */
  function SnprintfWritten(text: seq<char>, cap: nat): (w: seq<char>)
    ensures cap > 0 ==> |w| == if |text| < cap then |text| else cap - 1
    ensures w <= text
  {
    if cap == 0 then [] else if |text| < cap then text else text[..cap - 1]
  }

  /** The return value of snprintf below the buffer size means nothing
      was cut off. */
  lemma SnprintfNotTruncated(text: seq<char>, cap: nat)
    requires |text| < cap
    ensures SnprintfWritten(text, cap) == text
  {
  }

  /** The C string held by a byte sequence: everything before the first
      NUL. */
  function CString(s: seq<char>): (r: seq<char>)
    ensures r <= s
    ensures '\0' !in r
    ensures |r| < |s| ==> s[|r|] == '\0'
  {
    if |s| == 0 || s[0] == '\0' then [] else [s[0]] + CString(s[1..])
  }

  /** Text without a NUL is its own C string. */
  lemma {:induction false} CStringPlain(s: seq<char>)
    requires '\0' !in s
    ensures CString(s) == s
    decreases |s|
  {
    if |s| > 0 {
      CStringPlain(s[1..]);
      assert s == [s[0]] + s[1..];
    }
  }

  // ---------------------------------------------------------------
  // Joining and splitting on a separator

  function Join(parts: seq<seq<char>>, sep: char): (r: seq<char>)
    requires |parts| > 0
  {
    if |parts| == 1 then parts[0] else parts[0] + [sep] + Join(parts[1..], sep)
  }

  /** Joining one more piece appends the separator and the piece. */
  lemma {:induction false} JoinSnoc(parts: seq<seq<char>>, last: seq<char>, sep: char)
    requires |parts| > 0
    ensures Join(parts + [last], sep) == Join(parts, sep) + [sep] + last
    decreases |parts|
  {
    var ps := parts + [last];
    if |parts| > 1 {
      assert ps[1..] == parts[1..] + [last];
      JoinSnoc(parts[1..], last, sep);
    }
  }

  /** Splits `s` at every `sep`; the pieces contain no `sep`. */
  function SplitOn(s: seq<char>, sep: char): (r: seq<seq<char>>)
    ensures |r| > 0
    ensures forall i :: 0 <= i < |r| ==> sep !in r[i]
    decreases |s|
  {
    if sep !in s then [s]
    else
      var k := FirstOf(s, sep);
      [s[..k]] + SplitOn(s[k + 1..], sep)
  }

  /** The offset of the first `c` in `s`. */
  function FirstOf(s: seq<char>, c: char): (k: nat)
    requires c in s
    ensures k < |s| && s[k] == c && c !in s[..k]
  {
    if s[0] == c then 0 else 1 + FirstOf(s[1..], c)
  }

  lemma FirstOfPrefix(a: seq<char>, b: seq<char>, c: char)
    requires c !in a
    ensures c in a + [c] + b
    ensures FirstOf(a + [c] + b, c) == |a|
  {
    var s := a + [c] + b;
    assert s[|a|] == c;
    assert s[..|a|] == a;
  }

  /** Splitting at the first separator. */
  lemma SplitOnCons(a: seq<char>, b: seq<char>, sep: char)
    requires sep !in a
    ensures SplitOn(a + [sep] + b, sep) == [a] + SplitOn(b, sep)
  {
    var s := a + [sep] + b;
    FirstOfPrefix(a, b, sep);
    assert s[..|a|] == a;
    assert s[|a| + 1..] == b;
  }

  /** Splitting undoes joining when no piece holds the separator. */
  lemma {:induction false} SplitJoin(parts: seq<seq<char>>, sep: char)
    requires |parts| > 0
    requires forall i :: 0 <= i < |parts| ==> sep !in parts[i]
    ensures SplitOn(Join(parts, sep), sep) == parts
    decreases |parts|
  {
    if |parts| > 1 {
      SplitOnCons(parts[0], Join(parts[1..], sep), sep);
      SplitJoin(parts[1..], sep);
      assert parts == [parts[0]] + parts[1..];
    }
  }
}
