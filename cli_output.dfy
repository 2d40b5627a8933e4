/**
 * Programmer parameters (cli_output.c): the parameter string handed to
 * programmer_init, and extract_param, which finds `name=value` in it, returns
 * the value and cuts the parameter out of the string.
 *
 * A C string is its characters up to the terminating NUL; a NULL pointer is
 * None.  strstr, strcspn and strspn are the functions StrStr, ValueEnd and
 * SkipDelims below, each characterised by its contract.
 */
module CliOutput {

  import opened Optional

  /** `needle` occurs in h at index i. */
  predicate Occurs(h: string, needle: string, i: nat)
  {
    i + |needle| <= |h| && h[i..i + |needle|] == needle
  }

  /** The occurrence at i is a parameter name: it is followed by '=' and is at
   *  the start of the string or right after a delimiter. */
  predicate Qualifies(h: string, needle: string, delim: string, i: nat)
  {
    && Occurs(h, needle, i)
    && i + |needle| < |h| && h[i + |needle|] == '='
    && (i == 0 || h[i - 1] in delim)
  }

  /** strstr(h + from, needle): the first occurrence at or after `from`. */
  function StrStr(h: string, needle: string, from: nat): (r: Option<nat>)
    ensures r.Some? ==> from <= r.value && Occurs(h, needle, r.value)
    ensures r.Some? ==> forall j :: from <= j < r.value ==> !Occurs(h, needle, j)
    ensures r.None? ==> forall j :: from <= j ==> !Occurs(h, needle, j)
    decreases |h| - from
  {
    if from + |needle| > |h| then None
    else if Occurs(h, needle, from) then Some(from)
    else StrStr(h, needle, from + 1)
  }

  /** The first parameter named `needle` at or after `from`, searched for
   *  position by position. */
  function FirstQualifying(h: string, needle: string, delim: string, from: nat): (r: Option<nat>)
    ensures r.Some? ==> from <= r.value && Qualifies(h, needle, delim, r.value)
    ensures r.Some? ==> forall j :: from <= j < r.value ==> !Qualifies(h, needle, delim, j)
    ensures r.None? ==> forall j :: from <= j ==> !Qualifies(h, needle, delim, j)
    decreases |h| - from
  {
    if from >= |h| then None
    else if Qualifies(h, needle, delim, from) then Some(from)
    else FirstQualifying(h, needle, delim, from + 1)
  }

  /** strcspn(h + k, delim), as an index: the end of the text from k that
   *  holds no delimiter. */
  function ValueEnd(h: string, delim: string, k: nat): (e: nat)
    requires k <= |h|
    ensures k <= e <= |h|
    ensures forall j :: k <= j < e ==> h[j] !in delim
    ensures e == |h| || h[e] in delim
    decreases |h| - k
  {
    if k == |h| || h[k] in delim then k else ValueEnd(h, delim, k + 1)
  }

  /** strspn(h + k, delim), as an index: the end of the run of delimiters at k. */
  function SkipDelims(h: string, delim: string, k: nat): (e: nat)
    requires k <= |h|
    ensures k <= e <= |h|
    ensures forall j :: k <= j < e ==> h[j] in delim
    ensures e == |h| || h[e] !in delim
    decreases |h| - k
  {
    if k == |h| || h[k] !in delim then k else SkipDelims(h, delim, k + 1)
  }

  /** What extract_param(&haystack, needle, delim) returns, and what it leaves
   *  in the haystack. */
  function Extract(haystack: Option<string>, needle: string, delim: string): (Option<string>, Option<string>)
  {
    if |needle| == 0 || haystack.None? then (None, haystack)
    else
      var h := haystack.value;
      var found := FirstQualifying(h, needle, delim, 0);
      if found.None? then (None, haystack)
      else
        var i := found.value;
        var start := i + |needle| + 1;
        var end := ValueEnd(h, delim, start);
        var rest := SkipDelims(h, delim, end);
        (Some(h[start..end]), Some(h[..i] + h[rest..]))
  }

  /** extract_param(haystack, needle, delim): the search, then the copy of
   *  the value and the memmove that closes the gap. */
  method ExtractParam(haystack: Option<string>, needle: string, delim: string)
    returns (opt: Option<string>, haystack': Option<string>)
    ensures (opt, haystack') == Extract(haystack, needle, delim)
  {
    var n := |needle|;
    if n == 0 { return None, haystack; }
    if haystack.None? { return None, haystack; }
    var h := haystack.value;
    var pos := FindParam(h, needle, delim);
    if pos.None? { return None, haystack; }
    var i := pos.value;
    var start := i + n + 1;
    var length := ValueEnd(h, delim, start) - start;
    opt := Some(h[start..start + length]);
    var rest := start + length;
    rest := SkipDelims(h, delim, rest);
    haystack' := Some(h[..i] + h[rest..]);
  }

  /** The do/while loop of extract_param: strstr for the name, and again one
   *  character further on, until an occurrence is followed by '=' and is at
   *  the start or after a delimiter. */
  method FindParam(h: string, needle: string, delim: string) returns (pos: Option<nat>)
    requires |needle| > 0
    ensures pos == FirstQualifying(h, needle, delim, 0)
  {
    var n := |needle|;
    pos := StrStr(h, needle, 0);
    while true
      invariant pos.Some? ==> Occurs(h, needle, pos.value)
      invariant forall j :: 0 <= j && (pos.None? || j < pos.value) ==> !Qualifies(h, needle, delim, j)
      decreases if pos.None? then 0 else |h| + 1 - pos.value
    {
      if pos.None? { return; }
      var i := pos.value;
      if i + n < |h| && h[i + n] == '=' {
        if i == 0 { break; }
        if h[i - 1] in delim { break; }
      }
      assert !Qualifies(h, needle, delim, i);
      pos := StrStr(h, needle, i + 1);
    }
    assert Qualifies(h, needle, delim, pos.value);
  }

  /** programmer_param, the parameter string of the programmer, and the two
   *  functions that use it. */
  class Programmer {
    var param: Option<string>

    /** A static pointer starts out NULL. */
    constructor ()
      ensures param == None
    {
      param := None;
    }

    /** programmer_init(param): stores the string and reports success. */
    method Init(p: Option<string>) returns (r: int)
      modifies this
      ensures param == p && r == 0
    {
      param := p;
      r := 0;
    }

    /** extract_programmer_param(param_name): extract_param on the stored
     *  string with "," as the only delimiter. */
    method ExtractProgrammerParam(name: string) returns (opt: Option<string>)
      modifies this
      ensures (opt, param) == Extract(old(param), name, ",")
    {
      opt, param := ExtractParam(param, name, ",");
    }
  }

  // ---------------------------------------------------------------- lemmas

  /** Without a name to look for, or without a parameter string, nothing is
   *  found and nothing changes. */
  lemma ExtractWithoutInput(haystack: Option<string>, needle: string, delim: string)
    requires |needle| == 0 || haystack.None?
    ensures Extract(haystack, needle, delim) == (None, haystack)
  {
  }

  /** When no occurrence of the name is followed by '=' at the start or after
   *  a delimiter, nothing is found and the string is unchanged. */
  lemma ExtractMissing(h: string, needle: string, delim: string)
    requires forall j :: !Qualifies(h, needle, delim, j)
    ensures Extract(Some(h), needle, delim) == (None, Some(h))
  {
  }

  /** The parameter that is taken is the first qualifying occurrence i.  The
   *  value is the text after '=' up to the next delimiter or the end, and
   *  holds no delimiter; the new string keeps everything before i, including
   *  the delimiter in front of it, and resumes after the value and the run of
   *  delimiters that follows it, at a character that is not a delimiter.  The
   *  old string is the new one with `needle=value` and those delimiters put
   *  back at i. */
  lemma ExtractFound(h: string, needle: string, delim: string, i: nat) returns (value: string, h': string, d: string)
    requires |needle| > 0 && Qualifies(h, needle, delim, i)
    requires forall j: nat :: j < i ==> !Qualifies(h, needle, delim, j)
    ensures Extract(Some(h), needle, delim) == (Some(value), Some(h'))
    ensures forall k :: 0 <= k < |value| ==> value[k] !in delim
    ensures forall k :: 0 <= k < |d| ==> d[k] in delim
    ensures i <= |h'| && h'[..i] == h[..i]
    ensures i < |h'| ==> h'[i] !in delim
    ensures h == h'[..i] + needle + "=" + value + d + h'[i..]
  {
    FirstQualifyingIs(h, needle, delim, i);
    ExtractAt(h, needle, delim, i);
    value, h', d := Cut(h, needle, delim, i);
  }

  /** The pieces Extract makes of h when the parameter is at i. */
  lemma Cut(h: string, needle: string, delim: string, i: nat) returns (value: string, h': string, d: string)
    requires Occurs(h, needle, i) && i + |needle| < |h| && h[i + |needle|] == '='
    ensures var start := i + |needle| + 1;
            var end := ValueEnd(h, delim, start);
            (value, h') == (h[start..end], h[..i] + h[SkipDelims(h, delim, end)..])
    ensures forall k :: 0 <= k < |value| ==> value[k] !in delim
    ensures forall k :: 0 <= k < |d| ==> d[k] in delim
    ensures i <= |h'| && h'[..i] == h[..i]
    ensures i < |h'| ==> h'[i] !in delim
    ensures h == h'[..i] + needle + "=" + value + d + h'[i..]
  {
    var start := i + |needle| + 1;
    var end := ValueEnd(h, delim, start);
    var rest := SkipDelims(h, delim, end);
    value, h', d := h[start..end], h[..i] + h[rest..], h[end..rest];
    Reassemble(h, needle, i, end, rest, h');
  }

  /** The least qualifying index is the one FirstQualifying finds. */
  lemma FirstQualifyingIs(h: string, needle: string, delim: string, i: nat)
    requires Qualifies(h, needle, delim, i)
    requires forall j: nat :: j < i ==> !Qualifies(h, needle, delim, j)
    ensures FirstQualifying(h, needle, delim, 0) == Some(i)
  {
  }

  /** Extract once the parameter has been found at i. */
  lemma ExtractAt(h: string, needle: string, delim: string, i: nat)
    requires |needle| > 0 && FirstQualifying(h, needle, delim, 0) == Some(i)
    ensures var start := i + |needle| + 1;
            var end := ValueEnd(h, delim, start);
            var rest := SkipDelims(h, delim, end);
            Extract(Some(h), needle, delim) == (Some(h[start..end]), Some(h[..i] + h[rest..]))
  {
  }

  /** Cutting h at the name, the value's end and the end of the delimiters,
   *  and gluing the outer pieces together, can be undone. */
  lemma Reassemble(h: string, needle: string, i: nat, end: nat, rest: nat, h': string)
    requires Occurs(h, needle, i) && i + |needle| < |h| && h[i + |needle|] == '='
    requires i + |needle| + 1 <= end <= rest <= |h|
    requires h' == h[..i] + h[rest..]
    ensures i <= |h'| && h'[..i] == h[..i]
    ensures h == h'[..i] + needle + "=" + h[i + |needle| + 1..end] + h[end..rest] + h'[i..]
  {
    var start := i + |needle| + 1;
    assert h'[..i] == h[..i] && h'[i..] == h[rest..];
    assert h[i..start] == needle + "=";
    assert h == h[..i] + h[i..start] + h[start..end] + h[end..rest] + h[rest..];
  }

  /** Extraction never makes the parameter string longer; it takes out at
   *  least the name and its '='. */
  lemma ExtractShrinks(h: string, needle: string, delim: string)
    requires Extract(Some(h), needle, delim).0.Some?
    ensures var (opt, h') := Extract(Some(h), needle, delim);
            h'.Some? && |h'.value| + |needle| + 1 + |opt.value| <= |h|
  {
  }

  /** A name that occurs only inside another name is passed over: in
   *  "xaddr=1,addr=2" the parameter addr is "2", and "xaddr=1," remains. */
  lemma ExtractSkipsSuffixMatch()
    ensures Extract(Some("xaddr=1,addr=2"), "addr", ",") == (Some("2"), Some("xaddr=1,"))
  {
    var h := "xaddr=1,addr=2";
    assert !Qualifies(h, "addr", ",", 0) by { assert h[0..4] != "addr"; }
    assert !Qualifies(h, "addr", ",", 1) by { assert h[0] !in ","; }
    assert forall j :: 2 <= j < 8 ==> !Qualifies(h, "addr", ",", j) by {
      forall j | 2 <= j < 8
        ensures !Qualifies(h, "addr", ",", j)
      {
        assert h[j] != 'a' ==> h[j..j + 4][0] != "addr"[0];
      }
    }
    assert Qualifies(h, "addr", ",", 8) by { assert h[8..12] == "addr"; }
    assert FirstQualifying(h, "addr", ",", 0) == Some(8);
    assert ValueEnd(h, ",", 13) == 14;
    assert SkipDelims(h, ",", 14) == 14;
    assert h[13..14] == "2" && h[..8] + h[14..] == "xaddr=1,";
  }

  /** An empty value is returned as the empty string, and the delimiters
   *  after it go with it: "addr=,,bus=1" yields "" and leaves "bus=1". */
  lemma ExtractEmptyValue()
    ensures Extract(Some("addr=,,bus=1"), "addr", ",") == (Some(""), Some("bus=1"))
  {
    var h := "addr=,,bus=1";
    assert Qualifies(h, "addr", ",", 0) by { assert h[0..4] == "addr"; }
    assert FirstQualifying(h, "addr", ",", 0) == Some(0);
    assert ValueEnd(h, ",", 5) == 5;
    assert SkipDelims(h, ",", 5) == 7;
    assert h[5..5] == "" && h[..0] + h[7..] == "bus=1";
  }

}
