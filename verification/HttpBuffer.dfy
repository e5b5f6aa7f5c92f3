/** The loops of http.c over a part of the buffer, done in place. */
module HttpBuffer {
  import opened Bytes
  import opened HttpText
  import opened HttpSpec

  /** Nothing but `a[from..to]` has changed. */
  twostate predicate OnlyWithin(a: array<byte>, from: int, to: int)
    requires 0 <= from <= to <= a.Length
    reads a
  {
    forall j :: 0 <= j < from || to <= j < a.Length ==> a[j] == old(a[j])
  }

  /** memmove towards the start. */
  method Memmove(a: array<byte>, dst: nat, src: nat, n: nat)
    requires dst <= src && src + n <= a.Length
    modifies a
    ensures a[dst..dst + n] == old(a[src..src + n])
    ensures OnlyWithin(a, dst, src + n)
  {
    var k := 0;
    while k < n
      invariant k <= n
      invariant forall j :: dst <= j < dst + k ==> a[j] == old(a[..])[j + (src - dst)]
      invariant forall j :: 0 <= j < dst || dst + k <= j < a.Length ==> a[j] == old(a[..])[j]
    {
      a[dst + k] := a[src + k];
      k := k + 1;
    }
  }

  /** strip_ws_start and strip_ws_end. */
  method StripBoth(a: array<byte>, from: nat, to: nat, ghost stripped: seq<byte>) returns (from': nat, to': nat)
    requires from <= to <= a.Length && stripped == Strip(a[from..to])
    ensures from <= from' <= to' <= to && a[from'..to'] == stripped
  {
    to' := to;
    while from < to' && Space(a[to' - 1])
      invariant from <= to' <= to && StripEnd(a[from..to']) == StripEnd(a[from..to])
    {
      assert a[from..to'][..to' - 1 - from] == a[from..to' - 1];
      to' := to' - 1;
    }
    from' := from;
    while from' < to' && Space(a[from'])
      invariant from <= from' <= to' && StripStart(a[from'..to']) == StripStart(a[from..to'])
    {
      assert a[from'..to'][1..] == a[from' + 1..to'];
      from' := from' + 1;
    }
  }

  /** convert_to_lowercase. */
  method ConvertToLowercase(a: array<byte>, from: nat, to: nat)
    requires from <= to <= a.Length
    modifies a
    ensures a[from..to] == Lower(old(a[from..to]))
    ensures OnlyWithin(a, from, to)
  {
    var i := from;
    while i < to
      invariant from <= i <= to
      invariant forall j :: from <= j < i ==> a[j] == LowerByte(old(a[j]))
      invariant forall j :: 0 <= j < from || i <= j < a.Length ==> a[j] == old(a[j])
    {
      if a[i] < 65 {
      } else if a[i] <= 90 {
        a[i] := a[i] + 32;
      } else if a[i] < 192 || a[i] == 215 {
      } else if a[i] <= 222 {
        a[i] := a[i] + 32;
      }
      i := i + 1;
    }
  }

  /** strcmp with a constant: whether the string that starts at `from`, and has a NUL at `to` at the
      latest, is `word`. */
  method IsString(a: array<byte>, from: nat, to: nat, word: seq<byte>) returns (same: bool)
    requires from <= to < a.Length && a[to] == NUL && NUL !in word
    ensures same <==> CString(a[from..to]) == word
  {
    var s := a[from..to];
    var k := 0;
    while k < |word| && a[from + k] == word[k]
      invariant k <= |word| && from + k <= to && s[..k] == word[..k]
    {
      assert word[k] in word;
      k := k + 1;
    }
    same := k == |word| && a[from + k] == NUL;
    StringIs(s, word, k);
  }

  /** How far `s` and `word` agree tells whether the string in `s` is `word`. */
  lemma StringIs(s: seq<byte>, word: seq<byte>, k: nat)
    requires k <= |s| && k <= |word| && s[..k] == word[..k] && NUL !in word
    requires k < |word| && k < |s| ==> s[k] != word[k]
    ensures CString(s) == word <==> k == |word| && (k == |s| || s[k] == NUL)
  {
    var i := IndexOf(s, NUL);
    forall j | 0 <= j < k ensures s[j] != NUL {
      assert s[..k][j] == word[j];
    }
    if k == |word| && (k == |s| || s[k] == NUL) {
      IndexOfUnique(s, NUL, k);
      assert word[..k] == word;
    }
    if s[..i] == word {
      assert word[..k] == s[..k];
      assert i == |word|;
    }
  }

  /** strtoul on digits, and the assignment to a uint32_t. */
  method ToNumber(a: array<byte>, from: nat, to: nat) returns (n: nat)
    requires from <= to <= a.Length && AllDigits(a[from..to])
    ensures n == Decimal(a[from..to]) % 0x1_0000_0000
  {
    var value: nat := 0;
    var i := from;
    while i < to
      invariant from <= i <= to
      invariant AllDigits(a[from..i]) && value == Decimal(a[from..i])
    {
      assert a[from..i + 1][..i - from] == a[from..i] && IsDigit(a[from..to][i - from]);
      value := value * 10 + (a[i] - 48);
      i := i + 1;
    }
    n := value % 0x1_0000_0000;
  }

  /** The check of a Content-length, see DigitTest. */
  method CheckLength(a: array<byte>, from: nat, to: nat, digits: DigitTest) returns (ok: bool)
    requires from <= to < a.Length && a[to] == NUL
    ensures ok == LengthAccepted(a[from..to], digits)
  {
    var size := to - from;
    if size <= 0 || size >= TMP_BUFFER_SIZE {
      return false;
    }
    var i := 0;
    while i < size
      invariant i <= size && AllDigits(a[from..from + i]) && (i > 0 ==> digits == EachByte)
    {
      if !IsDigit(a[from + if digits == AsWritten then size else i]) {
        assert digits == EachByte ==> !IsDigit(a[from..to][i]);
        return false;
      }
      i := i + 1;
    }
    return true;
  }

  /** memcmp with a constant. */
  method Memcmp(a: array<byte>, from: nat, word: seq<byte>) returns (same: bool)
    requires from + |word| <= a.Length
    ensures same <==> a[from..from + |word|] == word
  {
    var k := 0;
    while k < |word| && a[from + k] == word[k]
      invariant k <= |word| && a[from..from + k] == word[..k]
    {
      k := k + 1;
    }
    same := k == |word|;
    assert k < |word| ==> a[from..from + |word|][k] != word[k];
  }

  /** A line that goes on: the blanks that start the next one are taken out, a space stands for them
      and for the end of line. What follows moves down, and so does the end. */
  method Fold(a: array<byte>, eol: nat, nextHeader: nat, end: nat) returns (end': nat)
    requires eol < nextHeader < end <= a.Length && Blank(a[nextHeader])
    modifies a
    ensures eol < end' < end && end' - eol <= end - nextHeader
    ensures a[eol] == SP && a[eol + 1..end'] == SkipBlanks(old(a[nextHeader..end]))
    ensures OnlyWithin(a, eol, end)
  {
    ghost var after := a[nextHeader..end];
    a[eol] := SP;
    assert a[nextHeader..end] == after;
    var next := SkipFrom(a, nextHeader, end);
    Memmove(a, eol + 1, next, end - next);
    end' := end - (next - (eol + 1));
  }

  method SkipFrom(a: array<byte>, from: nat, end: nat) returns (next: nat)
    requires from < end <= a.Length && Blank(a[from])
    ensures from < next <= end && a[next..end] == SkipBlanks(a[from..end])
  {
    assert a[from..end][1..] == a[from + 1..end];
    next := from + 1;
    while next < end && Blank(a[next])
      invariant from < next <= end && SkipBlanks(a[next..end]) == SkipBlanks(a[from..end])
    {
      assert a[next..end][1..] == a[next + 1..end];
      next := next + 1;
    }
  }

  /** The three searches for spaces in a request line. */
  method CutWords(a: array<byte>, sol: nat, eol: nat, ghost line: seq<byte>) returns (ok: bool, first: nat, second: nat)
    requires sol <= eol <= a.Length && line == a[sol..eol]
    ensures ok ==> sol <= first < second < eol
    ensures WordsOf(line) == if ok then Three(a[sol..first], a[first + 1..second], a[second + 1..eol]) else NotThree
  {
    hide IndexOf, WordsBehind;
    first := Memchr(a, SP, sol, eol);
    if first == eol {
      return false, first, eol;
    }
    SplitSlice(a, sol, first, eol);
    ok, second := CutRest(a, a[sol..first], first + 1, eol, a[first + 1..eol]);
  }

  lemma SplitSlice(a: array<byte>, from: nat, at: nat, to: nat)
    requires from <= at < to <= a.Length
    ensures a[from..to][..at - from] == a[from..at] && a[from..to][at - from + 1..] == a[at + 1..to]
  {
  }

  method CutRest(a: array<byte>, ghost word: seq<byte>, from: nat, eol: nat, ghost rest: seq<byte>)
    returns (ok: bool, second: nat)
    requires from <= eol <= a.Length && rest == a[from..eol]
    ensures ok ==> from <= second < eol
    ensures WordsBehind(word, rest) == if ok then Three(word, a[from..second], a[second + 1..eol]) else NotThree
  {
    second := Memchr(a, SP, from, eol);
    if second == eol {
      return false, second;
    }
    SplitSlice(a, from, second, eol);
    var third := Memchr(a, SP, second + 1, eol);
    ok := third == eol;
  }
}
