/**
 str_for_flag_ranges: the set flags of a vector as text such as "1,3,4,7-12", undone by parsing the text.
 */
module FlagRanges {
  import opened Bytes

  /** A run of set flags, both ends included. */
  datatype Group = Group(start: nat, end: nat)

  // ---- numbers in decimal ----

  function DigitChar(d: nat): char
    requires d < 10
  {
    ['0', '1', '2', '3', '4', '5', '6', '7', '8', '9'][d]
  }

  function DigitValue(c: char): Option<nat> {
    if '0' <= c <= '9' then Some((c - '0') as nat) else None
  }

  function Decimal(n: nat): (s: string)
    ensures |s| > 0
  {
    if n < 10 then [DigitChar(n)] else Decimal(n / 10) + [DigitChar(n % 10)]
  }

  lemma DigitsRead(d: nat)
    requires d < 10
    ensures DigitValue(DigitChar(d)) == Some(d)
  {
  }

  // ---- the text of a list of groups ----

  function GroupText(g: Group): (s: string)
    ensures |s| > 0
  {
    if g.start == g.end then Decimal(g.start)
    else if g.start == g.end - 1 then Decimal(g.start) + "," + Decimal(g.end)
    else Decimal(g.start) + "-" + Decimal(g.end)
  }

  function Text(groups: seq<Group>): (s: string)
    ensures s == "" <==> groups == []
  {
    if groups == [] then ""
    else
      var before := Text(groups[..|groups| - 1]);
      (if before == "" then "" else before + ",") + GroupText(groups[|groups| - 1])
  }

  /** The numbers from a up to, and without, b. */
  function Range(a: nat, b: nat): seq<nat>
    decreases b
  {
    if a >= b then [] else Range(a, b - 1) + [b - 1]
  }

  function Members(groups: seq<Group>): seq<nat> {
    if groups == [] then []
    else Members(groups[..|groups| - 1]) + Range(groups[|groups| - 1].start, groups[|groups| - 1].end + 1)
  }

  /** The set flags below n, each once and in increasing order. */
  function SetFlags(flags: seq<bool>, n: nat): seq<nat>
    requires n <= |flags|
  {
    if n == 0 then [] else SetFlags(flags, n - 1) + (if flags[n - 1] then [n - 1] else [])
  }

  lemma {:induction false} SetFlagsExact(flags: seq<bool>, n: nat)
    requires n <= |flags|
    ensures forall i: nat :: i in SetFlags(flags, n) <==> i < n && flags[i]
    ensures forall j, k | 0 <= j < k < |SetFlags(flags, n)| :: SetFlags(flags, n)[j] < SetFlags(flags, n)[k]
  {
    if n > 0 {
      SetFlagsExact(flags, n - 1);
      var before := SetFlags(flags, n - 1);
      forall j | 0 <= j < |before|
        ensures before[j] < n - 1
      {
        assert before[j] in before;
      }
    }
  }

  // ---- reading such a text ----

  /** What has been read: numbers, the start of a range, and the number at hand. */
  datatype State = Reading(out: seq<nat>, first: Option<nat>, number: Option<nat>) | Bad

  function Finish(st: State): Option<seq<nat>> {
    match st
    case Reading(out, None, Some(n)) => Some(out + [n])
    case Reading(out, Some(a), Some(b)) => if a <= b then Some(out + Range(a, b + 1)) else None
    case _ => None
  }

  function Step(st: State, c: char): State {
    match st
    case Bad => Bad
    case Reading(out, first, number) =>
      if DigitValue(c).Some? then
        Reading(out, first, Some((if number.Some? then 10 * number.value else 0) + DigitValue(c).value))
      else if c == '-' && first.None? && number.Some? then Reading(out, number, None)
      else if c == ',' && Finish(st).Some? then Reading(Finish(st).value, None, None)
      else Bad
  }

  function Run(st: State, t: string): State {
    if t == "" then st else Step(Run(st, t[..|t| - 1]), t[|t| - 1])
  }

  function Expand(t: string): Option<seq<nat>> {
    if t == "" then Some([]) else Finish(Run(Reading([], None, None), t))
  }

  lemma {:induction false} RunAppend(st: State, s: string, t: string)
    ensures Run(st, s + t) == Run(Run(st, s), t)
    decreases |t|
  {
    if t == "" {
      assert s + t == s;
    } else {
      var last := |t| - 1;
      assert (s + t)[..|s + t| - 1] == s + t[..last];
      RunAppend(st, s, t[..last]);
    }
  }

  lemma RunOne(st: State, s: string, c: char)
    ensures Run(st, s + [c]) == Step(Run(st, s), c)
  {
    assert (s + [c])[..|s|] == s;
  }

  lemma StepDigit(out: seq<nat>, first: Option<nat>, number: Option<nat>, d: nat)
    requires d < 10
    ensures Step(Reading(out, first, number), DigitChar(d))
         == Reading(out, first, Some((if number.Some? then 10 * number.value else 0) + d))
  {
    DigitsRead(d);
  }

  lemma {:induction false} RunDecimal(out: seq<nat>, first: Option<nat>, n: nat)
    ensures Run(Reading(out, first, None), Decimal(n)) == Reading(out, first, Some(n))
  {
    var st := Reading(out, first, None);
    if n < 10 {
      RunOne(st, "", DigitChar(n));
      assert "" + [DigitChar(n)] == Decimal(n);
      StepDigit(out, first, None, n);
    } else {
      RunDecimal(out, first, n / 10);
      RunOne(st, Decimal(n / 10), DigitChar(n % 10));
      StepDigit(out, first, Some(n / 10), n % 10);
    }
  }

  lemma RunGroup(out: seq<nat>, g: Group)
    requires g.start <= g.end
    ensures Finish(Run(Reading(out, None, None), GroupText(g))) == Some(out + Range(g.start, g.end + 1))
  {
    var st := Reading(out, None, None);
    var first, last := Decimal(g.start), Decimal(g.end);
    RunDecimal(out, None, g.start);
    assert Range(g.start, g.start + 1) == [g.start] by {
      assert Range(g.start, g.start) == [];
    }
    if g.start == g.end {
    } else if g.start == g.end - 1 {
      RunOne(st, first, ',');
      RunAppend(st, first + ",", last);
      RunDecimal(out + [g.start], None, g.end);
      assert out + [g.start] + [g.end] == out + ([g.start] + [g.end]);
    } else {
      RunOne(st, first, '-');
      RunAppend(st, first + "-", last);
      RunDecimal(out, Some(g.start), g.end);
    }
  }

  /** Reading the text of groups gives their members. */
  lemma {:induction false} TextExpands(groups: seq<Group>)
    requires forall g | g in groups :: g.start <= g.end
    ensures Expand(Text(groups)) == Some(Members(groups))
  {
    if groups != [] {
      var before, g := groups[..|groups| - 1], groups[|groups| - 1];
      TextExpands(before);
      var st := Reading([], None, None);
      if before == [] {
        RunGroup([], g);
        assert "" + GroupText(g) == GroupText(g);
      } else {
        RunOne(st, Text(before), ',');
        RunAppend(st, Text(before) + ",", GroupText(g));
        RunGroup(Members(before), g);
      }
    }
  }

  // ---- the loop ----

  /** A run of set flags that cannot be extended. */
  predicate MaximalRun(flags: seq<bool>, g: Group) {
    && g.start <= g.end < |flags|
    && (forall i | g.start <= i <= g.end :: flags[i])
    && (g.start == 0 || !flags[g.start - 1])
    && (g.end + 1 == |flags| || !flags[g.end + 1])
  }

  lemma {:induction false} RunIsRange(flags: seq<bool>, start: nat, n: nat)
    requires start <= n <= |flags| && forall i | start <= i < n :: flags[i]
    ensures SetFlags(flags, n) == SetFlags(flags, start) + Range(start, n)
    decreases n
  {
    if start < n {
      RunIsRange(flags, start, n - 1);
    }
  }

  lemma GroupAdded(flags: seq<bool>, groups: seq<Group>, start: nat, n: nat)
    requires start < n <= |flags| && MaximalRun(flags, Group(start, n - 1))
    requires Members(groups) == SetFlags(flags, start)
    ensures Members(groups + [Group(start, n - 1)]) == SetFlags(flags, n)
  {
    RunIsRange(flags, start, n);
    assert (groups + [Group(start, n - 1)])[..|groups|] == groups;
  }

  /** These groups are maximal runs, and they hold the set flags below n. */
  ghost predicate Found(flags: seq<bool>, groups: seq<Group>, n: nat) {
    n <= |flags| && Members(groups) == SetFlags(flags, n) && forall i | 0 <= i < |groups| :: MaximalRun(flags, groups[i])
  }

  lemma {:induction false} RangeMembers(a: nat, b: nat, x: nat)
    requires x in Range(a, b)
    ensures a <= x < b
    decreases b
  {
    if a < b - 1 && x != b - 1 {
      RangeMembers(a, b - 1, x);
    }
  }

  lemma {:induction false} MembersGroup(groups: seq<Group>, x: nat) returns (g: Group)
    requires x in Members(groups)
    ensures g in groups && g.start <= x <= g.end
  {
    var before, last := groups[..|groups| - 1], groups[|groups| - 1];
    if x in Members(before) {
      g := MembersGroup(before, x);
    } else {
      RangeMembers(last.start, last.end + 1, x);
      g := last;
    }
  }

  lemma MaximalRunsAgree(flags: seq<bool>, g: Group, h: Group, x: nat)
    requires MaximalRun(flags, g) && MaximalRun(flags, h) && g.start <= x <= g.end && h.start <= x <= h.end
    ensures g == h
  {
  }

  /** Every maximal run is one of the groups. */
  lemma RunsAppear(flags: seq<bool>, groups: seq<Group>, run: Group)
    requires Found(flags, groups, |flags|) && MaximalRun(flags, run)
    ensures run in groups
  {
    SetFlagsExact(flags, |flags|);
    var g := MembersGroup(groups, run.start);
    MaximalRunsAgree(flags, g, run, run.start);
  }

  /** The run that is open before flag z, if any. */
  predicate Open(flags: seq<bool>, start: nat, z: nat) {
    start < z <= |flags| && (start == 0 || !flags[start - 1]) && forall i | start <= i < z :: flags[i]
  }

  lemma Closed(flags: seq<bool>, groups: seq<Group>, start: nat, z: nat)
    requires Found(flags, groups, start) && Open(flags, start, z) && (z == |flags| || !flags[z])
    ensures Found(flags, groups + [Group(start, z - 1)], z)
  {
    GroupAdded(flags, groups, start, z);
  }

  /** What holds before flag z is looked at. */
  ghost predicate Progress(flags: seq<bool>, ret: string, groups: seq<Group>, z: nat, inRange: bool, start: nat) {
    z <= |flags| && ret == Text(groups) &&
    if inRange then Open(flags, start, z) && Found(flags, groups, start)
    else (z == 0 || !flags[z - 1]) && Found(flags, groups, z)
  }

  lemma NothingWritten(flags: seq<bool>)
    ensures Progress(flags, "", [], 0, false, 0)
  {
  }

  lemma FoundSkips(flags: seq<bool>, groups: seq<Group>, z: nat)
    requires z < |flags| && !flags[z] && Found(flags, groups, z)
    ensures Found(flags, groups, z + 1)
  {
    SetFlagsStep(flags, z);
  }

  lemma SetFlagsStep(flags: seq<bool>, z: nat)
    requires z < |flags|
    ensures SetFlags(flags, z + 1) == if flags[z] then SetFlags(flags, z) + [z] else SetFlags(flags, z)
  {
  }

  /** A step that adds no group: a run is opened or extended, or an unset flag between runs is passed. */
  lemma PassesFlag(flags: seq<bool>, ret: string, groups: seq<Group>, z: nat, inRange: bool, start: nat)
    requires Progress(flags, ret, groups, z, inRange, start) && z < |flags| && (inRange ==> flags[z])
    ensures Progress(flags, ret, groups, z + 1, flags[z], if inRange || !flags[z] then start else z)
  {
    if !flags[z] {
      FoundSkips(flags, groups, z);
    } else if inRange {
      ExtendsRun(flags, start, z);
    } else {
      OpensRun(flags, z);
    }
  }

  lemma OpensRun(flags: seq<bool>, z: nat)
    requires z < |flags| && flags[z] && (z == 0 || !flags[z - 1])
    ensures Open(flags, z, z + 1)
  {
  }

  lemma ExtendsRun(flags: seq<bool>, start: nat, z: nat)
    requires z < |flags| && flags[z] && Open(flags, start, z)
    ensures Open(flags, start, z + 1)
  {
  }

  /** The text written so far is that of maximal runs which hold the set flags below n. */
  ghost predicate Written(flags: seq<bool>, ret: string, groups: seq<Group>, n: nat) {
    ret == Text(groups) && Found(flags, groups, n)
  }

  /** add_result, called with the first and the last flag of a run that has just ended. */
  method AddResult(ghost flags: seq<bool>, ret0: string, ghost groups0: seq<Group>, start: nat, end: nat)
    returns (ret: string, ghost groups: seq<Group>)
    requires Progress(flags, ret0, groups0, end + 1, true, start) && (end + 1 == |flags| || !flags[end + 1])
    ensures Written(flags, ret, groups, end + 1)
  {
    groups := groups0 + [Group(start, end)];
    Closed(flags, groups0, start, end + 1);
    ret := ret0;
    if ret != "" {
      ret := ret + ",";
    }
    if start == end {
      ret := ret + Decimal(start);
    } else if start == end - 1 {
      ret := ret + (Decimal(start) + "," + Decimal(end));
    } else {
      ret := ret + (Decimal(start) + "-" + Decimal(end));
    }
    TextGrows(groups0, Group(start, end));
  }

  lemma TextGrows(groups: seq<Group>, g: Group)
    ensures Text(groups + [g]) == (if Text(groups) == "" then "" else Text(groups) + ",") + GroupText(g)
  {
    assert (groups + [g])[..|groups|] == groups;
  }

  lemma UnsetFlag(flags: seq<bool>, ret: string, groups: seq<Group>, z: nat, start: nat)
    requires z < |flags| && !flags[z] && Written(flags, ret, groups, z)
    ensures Progress(flags, ret, groups, z + 1, false, start)
  {
    FoundSkips(flags, groups, z);
  }

  lemma AllWritten(flags: seq<bool>, ret: string, groups: seq<Group>, start: nat)
    requires Progress(flags, ret, groups, |flags|, false, start)
    ensures Written(flags, ret, groups, |flags|)
  {
  }

  lemma WrittenExpands(flags: seq<bool>, ret: string, groups: seq<Group>)
    requires Written(flags, ret, groups, |flags|)
    ensures Expand(ret) == Some(SetFlags(flags, |flags|))
  {
    TextExpands(groups);
  }

  /**
   The text parses back to the set flags. It is the text of groups each of which is a maximal run, so that no run is
   split and no two runs are joined.
   */
  method StrForFlagRanges(flags: seq<bool>) returns (ret: string, ghost groups: seq<Group>)
    ensures Expand(ret) == Some(SetFlags(flags, |flags|))
    ensures Written(flags, ret, groups, |flags|)
  {
    ret, groups := "", [];
    var rangeStart := 0;
    NothingWritten(flags);
    var inRange := false;
    for z := 0 to |flags|
      invariant Progress(flags, ret, groups, z, inRange, rangeStart)
    {
      if flags[z] && !inRange {
        PassesFlag(flags, ret, groups, z, inRange, rangeStart);
        inRange := true;
        rangeStart := z;
      } else if !flags[z] && inRange {
        inRange := false;
        ret, groups := AddResult(flags, ret, groups, rangeStart, z - 1);
        UnsetFlag(flags, ret, groups, z, rangeStart);
      } else {
        PassesFlag(flags, ret, groups, z, inRange, rangeStart);
      }
    }
    if inRange {
      ret, groups := AddResult(flags, ret, groups, rangeStart, |flags| - 1);
    } else {
      AllWritten(flags, ret, groups, rangeStart);
    }
    WrittenExpands(flags, ret, groups);
  }
}
