/** Paging through the ranked matches: ten on the first page, then pages of
    fifty. The page size is set to fifty before the cursor advances, so the
    first "more" moves the cursor from 0 to 50 and positions 10..49 are never
    shown. */
module Pagination {

  // Reading the user's answer

  datatype Command = More | ShowDetails(id: nat) | Exit | Invalid

  /** The ASCII characters Python's `str.isspace` accepts: space, tab,
      line feed, vertical tab, form feed, carriage return, and the four
      separators 0x1C..0x1F. */
  predicate IsSpace(c: char) {
    c == ' ' || ('\t' <= c <= '\r') || ('\U{001C}' <= c <= '\U{001F}')
  }

  function TrimLeft(s: string): (r: string)
    ensures |r| <= |s| && r == s[|s| - |r|..]
    ensures forall i | 0 <= i < |s| - |r| :: IsSpace(s[i])
    ensures |r| > 0 ==> !IsSpace(r[0])
    decreases |s|
  {
    if |s| > 0 && IsSpace(s[0]) then TrimLeft(s[1..]) else s
  }

  function TrimRight(s: string): (r: string)
    ensures |r| <= |s| && r == s[..|r|]
    ensures forall i | |r| <= i < |s| :: IsSpace(s[i])
    ensures |r| > 0 ==> !IsSpace(r[|r| - 1])
    decreases |s|
  {
    if |s| > 0 && IsSpace(s[|s| - 1]) then TrimRight(s[..|s| - 1]) else s
  }

  /** Leading and trailing white space removed. */
  function Strip(s: string): string {
    TrimRight(TrimLeft(s))
  }

  function LowerChar(c: char): (r: char)
    ensures 'A' <= c <= 'Z' ==> 'a' <= r <= 'z' && r as int - 'a' as int == c as int - 'A' as int
    ensures !('A' <= c <= 'Z') ==> r == c
  {
    if 'A' <= c <= 'Z' then (c as int - 'A' as int + 'a' as int) as char else c
  }

  function Lower(s: string): (r: string)
    ensures |r| == |s| && forall i | 0 <= i < |s| :: r[i] == LowerChar(s[i])
    decreases |s|
  {
    if |s| == 0 then [] else [LowerChar(s[0])] + Lower(s[1..])
  }

  predicate IsDigits(s: string) {
    |s| > 0 && forall i | 0 <= i < |s| :: '0' <= s[i] <= '9'
  }

  /** The decimal value of a string of digits. */
  function DigitsValue(s: string): nat
    requires forall i | 0 <= i < |s| :: '0' <= s[i] <= '9'
    decreases |s|
  {
    if |s| == 0 then 0 else DigitsValue(s[..|s| - 1]) * 10 + (s[|s| - 1] as int - '0' as int)
  }

  /** The decimal spelling of a number, the inverse of `DigitsValue`. */
  function Decimal(n: nat): (r: string)
    ensures IsDigits(r)
    decreases n
  {
    (if n < 10 then [] else Decimal(n / 10)) + [(n % 10 + '0' as int) as char]
  }

  lemma {:induction false} DecimalRoundTrip(n: nat)
    ensures DigitsValue(Decimal(n)) == n
    decreases n
  {
    var r := Decimal(n);
    var front := if n < 10 then [] else Decimal(n / 10);
    assert r[..|r| - 1] == front;
    if n >= 10 {
      DecimalRoundTrip(n / 10);
    }
  }

  /** The answer after stripping: "more" in any letter case, then a donor id
      made of digits, then "exit" in any letter case, otherwise invalid. */
  function Classify(line: string): (r: Command)
    ensures r == More <==> IsMoreAnswer(line)
    ensures r.ShowDetails? <==> !IsMoreAnswer(line) && IsDigits(Strip(line))
    ensures r.ShowDetails? ==> r.id == DigitsValue(Strip(line))
    ensures r == Exit <==> !IsDigits(Strip(line)) && Lower(Strip(line)) == "exit"
    ensures r == Invalid <==>
      !IsMoreAnswer(line) && !IsDigits(Strip(line)) && Lower(Strip(line)) != "exit"
  {
    var a := Strip(line);
    if Lower(a) == "more" then More
    else if IsDigits(a) then ShowDetails(DigitsValue(a))
    else if Lower(a) == "exit" then Exit
    else Invalid
  }

  /** An answer that reads "more" once stripped and lower-cased. */
  predicate IsMoreAnswer(line: string) {
    Lower(Strip(line)) == "more"
  }

  /** "more" in any letter case, surrounded by any blanks, asks for the next page. */
  lemma ClassifyMore(before: string, w: string, after: string)
    requires forall i | 0 <= i < |before| :: IsSpace(before[i])
    requires forall i | 0 <= i < |after| :: IsSpace(after[i])
    requires Lower(w) == "more"
    ensures Classify(before + w + after) == More
  {
    assert LowerChar(w[0]) == 'm' && LowerChar(w[3]) == 'e';
    StripPadded(before, w, after);
  }

  /** A trailing unit separator (0x1F) is white space to the strip, so
      "more" followed by it still asks for the next page. */
  lemma MoreBeforeUnitSeparator()
    ensures Classify("more\U{001F}") == More
  {
    assert "" + "more" + "\U{001F}" == "more\U{001F}";
    ClassifyMore("", "more", "\U{001F}");
  }

  /** "exit" in any letter case, surrounded by any blanks, leaves the listing. */
  lemma ClassifyExit(before: string, w: string, after: string)
    requires forall i | 0 <= i < |before| :: IsSpace(before[i])
    requires forall i | 0 <= i < |after| :: IsSpace(after[i])
    requires Lower(w) == "exit"
    ensures Classify(before + w + after) == Exit
  {
    assert LowerChar(w[0]) == 'e' && LowerChar(w[3]) == 't';
    StripPadded(before, w, after);
  }

  /** Typing a donor id selects that donor, surrounding blanks aside. */
  lemma ClassifyId(n: nat, before: string, after: string)
    requires forall i | 0 <= i < |before| :: IsSpace(before[i])
    requires forall i | 0 <= i < |after| :: IsSpace(after[i])
    ensures Classify(before + Decimal(n) + after) == ShowDetails(n)
  {
    var d := Decimal(n);
    StripPadded(before, d, after);
    DecimalRoundTrip(n);
    assert Lower(d)[0] == d[0];
  }

  /** Stripping removes exactly the blank padding around a word that neither
      starts nor ends with a blank. */
  lemma StripPadded(before: string, w: string, after: string)
    requires forall i | 0 <= i < |before| :: IsSpace(before[i])
    requires forall i | 0 <= i < |after| :: IsSpace(after[i])
    requires |w| > 0 && !IsSpace(w[0]) && !IsSpace(w[|w| - 1])
    ensures Strip(before + w + after) == w
  {
    TrimLeftPadded(before, w + after);
    assert before + w + after == before + (w + after);
    TrimRightPadded(w, after);
  }

  lemma {:induction false} TrimLeftPadded(before: string, rest: string)
    requires forall i | 0 <= i < |before| :: IsSpace(before[i])
    requires |rest| > 0 && !IsSpace(rest[0])
    ensures TrimLeft(before + rest) == rest
    decreases |before|
  {
    if |before| == 0 {
      assert before + rest == rest;
    } else {
      assert (before + rest)[1..] == before[1..] + rest;
      TrimLeftPadded(before[1..], rest);
    }
  }

  lemma {:induction false} TrimRightPadded(rest: string, after: string)
    requires forall i | 0 <= i < |after| :: IsSpace(after[i])
    requires |rest| > 0 && !IsSpace(rest[|rest| - 1])
    ensures TrimRight(rest + after) == rest
    decreases |after|
  {
    if |after| == 0 {
      assert rest + after == rest;
    } else {
      var s := rest + after;
      assert s[..|s| - 1] == rest + after[..|after| - 1];
      TrimRightPadded(rest, after[..|after| - 1]);
    }
  }

  // The paging loop

  /** The half-open range of positions `lo .. hi` shown on one page. */
  datatype Window = Window(lo: nat, hi: nat)

  datatype Ending =
    | Exhausted              // the cursor passed the end of the list
    | DetailsRequested(id: nat)
    | Exited
    | InvalidInput
    | InputEnded             // no answer was available for an open page

  function Min(a: nat, b: nat): nat {
    if a <= b then a else b
  }

  /** The number of answers at the head of `cmds` that are "more". */
  function LeadingMores(cmds: seq<Command>): (m: nat)
    ensures m <= |cmds|
    ensures forall j | 0 <= j < m :: cmds[j] == More
    ensures m < |cmds| ==> cmds[m] != More
    decreases |cmds|
  {
    if |cmds| == 0 || cmds[0] != More then 0 else 1 + LeadingMores(cmds[1..])
  }

  /** Page `j` of a list of `n` matches: the first ten, then fifty from
      position 50 * j onwards. */
  function PageWindow(j: nat, n: nat): Window {
    if j == 0 then Window(0, Min(10, n)) else Window(50 * j, Min(50 * j + 50, n))
  }

  /** How many pages a list of `n` matches has: one for any nonempty list,
      plus one for each further multiple of fifty below `n`. */
  function PageCount(n: nat): nat {
    if n == 0 then 0 else (n - 1) / 50 + 1
  }

  lemma PageCountBounds(n: nat, k: nat)
    requires 0 < n && 50 * (k - 1) < n <= 50 * k
    ensures PageCount(n) == k
  {
    assert 50 * (k - 1) <= n - 1 < 50 * k;
  }

  /** Why the paging loop over `n` matches stops under answers `cmds`: it runs
      out of matches iff the leading "more" answers outrun the pages;
      otherwise the first other answer decides, or the answers ran out. */
  predicate StopsAs(n: nat, cmds: seq<Command>, ending: Ending) {
    && (ending == Exhausted <==> PageCount(n) <= LeadingMores(cmds))
    && (ending != Exhausted ==>
          var m := LeadingMores(cmds);
          if m == |cmds| then ending == InputEnded
          else match cmds[m]
            case ShowDetails(id) => ending == DetailsRequested(id)
            case Exit => ending == Exited
            case _ => ending == InvalidInput)
  }

  /** The paging loop over `n` ranked matches, answering with `cmds` in turn.
      Returns the windows shown and why the loop stopped. */
  method Paginate(n: nat, cmds: seq<Command>) returns (windows: seq<Window>, ending: Ending)
    ensures |windows| == Min(LeadingMores(cmds) + 1, PageCount(n))
    ensures forall j | 0 <= j < |windows| :: windows[j] == PageWindow(j, n)
    ensures forall j | 0 <= j < |windows| :: windows[j].lo < windows[j].hi <= n
    ensures forall j | 0 <= j < |windows| :: windows[j].hi <= 10 || 50 <= windows[j].lo
    ensures StopsAs(n, cmds, ending)
  {
    var idx: nat := 0;
    var pageSize: nat := 10;
    var k: nat := 0;
    windows := [];
    while idx < n
      invariant k <= LeadingMores(cmds)
      invariant |windows| == k
      invariant idx == 50 * k
      invariant pageSize == if k == 0 then 10 else 50
      invariant k == 0 || 50 * (k - 1) < n
      invariant forall j | 0 <= j < k :: windows[j] == PageWindow(j, n)
      invariant forall j | 0 <= j < k :: windows[j].lo < windows[j].hi <= n
      decreases n - idx
    {
      windows := windows + [Window(idx, Min(idx + pageSize, n))];
      if k == |cmds| {
        PageCountAtLeast(n, k);
        return windows, InputEnded;
      }
      var c := cmds[k];
      k := k + 1;
      match c {
        case More =>
          pageSize := 50;
          idx := idx + pageSize;
        case ShowDetails(id) =>
          PageCountAtLeast(n, k - 1);
          return windows, DetailsRequested(id);
        case Exit =>
          PageCountAtLeast(n, k - 1);
          return windows, Exited;
        case Invalid =>
          PageCountAtLeast(n, k - 1);
          return windows, InvalidInput;
      }
    }
    if n > 0 {
      PageCountBounds(n, k);
    }
    ending := Exhausted;
  }

  lemma PageCountAtLeast(n: nat, k: nat)
    requires 50 * k < n
    ensures k + 1 <= PageCount(n)
  {
  }
}
