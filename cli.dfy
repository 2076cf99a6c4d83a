/**
 * The command line's own logic: reading the repeatable `--assign
 * GROUP:PATTERN` and `--title GROUP:TITLE` options into the maps the
 * split configuration carries, and the icon the plan display shows for
 * each file status.
 */
module Cli {
  import opened Wrappers
  import opened Errors
  import opened Strings
  import opened Models

  /** One `GROUP:TEXT` option value, read. */
  datatype Entry = Entry(group: int, text: string)

  const AssignFormat: string := "'GROUP:VALUE' (e.g., '1:src/**')"
  const TitleFormat: string := "'GROUP:TITLE' (e.g., '1:Add models')"

  function FormatMessage(value: string, format: string): string
  {
    "Invalid format '" + value + "'. Expected " + format + "."
  }

  function GroupMessage(groupText: string, value: string): string
  {
    "Invalid group number '" + groupText + "' in '" + value + "'. Must be an integer."
  }

  function RangeMessage(group: int): string
  {
    "Group number must be >= 1, got " + IntToString(group) + "."
  }

  /**
   * One value of `--assign` or `--title` (`format` says which): split at
   * its first colon, the part before it read with `int`, which must be at
   * least 1.
   */
  function ParseEntry(value: string, format: string): Result<Entry, Failure>
  {
    if ':' !in value then Err(BadParameter(FormatMessage(value, format)))
    else
      var k := IndexOf(value, ':');
      var groupText := value[..k];
      match IntOf(groupText)
      case None => Err(BadParameter(GroupMessage(groupText, value)))
      case Some(g) =>
        if g < 1 then Err(BadParameter(RangeMessage(g)))
        else Ok(Entry(g, value[k + 1..]))
  }

  /**
   * A value without a colon is refused with the format message; a value
   * that reads names a group of at least 1, written before its first colon,
   * and its text is everything after that colon.
   */
  lemma ParseEntryShape(value: string, format: string)
    ensures ':' !in value ==> ParseEntry(value, format) == Err(BadParameter(FormatMessage(value, format)))
    ensures var r := ParseEntry(value, format);
      r.Ok? ==> (r.value.group >= 1 &&
        exists k :: 0 <= k < |value| && value[k] == ':' && ':' !in value[..k]
          && IntOf(value[..k]) == Some(r.value.group) && value[k + 1..] == r.value.text)
  {
    if ':' in value {
      var k := IndexOf(value, ':');
      assert value[k] == ':' && ':' !in value[..k];
    }
  }

  /**
   * A value written as `"{g}:{text}"` with `g >= 1` within `int()`'s digit
   * limit reads back as `g` and `text`, whatever colons `text` holds.
   */
  lemma ParseEntryRoundTrip(g: int, text: string, format: string)
    requires g >= 1 && WithinDigitLimit(g)
    ensures ParseEntry(IntToString(g) + ":" + text, format) == Ok(Entry(g, text))
  {
    var value := IntToString(g) + ":" + text;
    assert ':' !in IntToString(g) by {
      assert AllDigits(IntToString(g));
    }
    IndexOfJoined(IntToString(g), ':', text);
    assert value[..|IntToString(g)|] == IntToString(g);
    assert value[|IntToString(g)| + 1..] == text;
    IntOfRoundTrip(g);
  }

  /**
   * A value with a colon, by what `int` makes of the text before its first
   * colon: unreadable text and a group below 1 are refused with their own
   * messages, which name that text; any spelling of a group of at least 1
   * (`" 2"`, `"+2"`, `"02"`) is accepted with the rest as its text.
   */
  lemma ParseEntryErrors(groupText: string, rest: string, format: string)
    requires ':' !in groupText
    ensures var value := groupText + ":" + rest;
      && (IntOf(groupText) == None ==> ParseEntry(value, format) == Err(BadParameter(GroupMessage(groupText, value))))
      && (IntOf(groupText).Some? && IntOf(groupText).value < 1 ==>
            ParseEntry(value, format) == Err(BadParameter(RangeMessage(IntOf(groupText).value))))
      && (IntOf(groupText).Some? && IntOf(groupText).value >= 1 ==>
            ParseEntry(value, format) == Ok(Entry(IntOf(groupText).value, rest)))
  {
    var value := groupText + ":" + rest;
    IndexOfJoined(groupText, ':', rest);
    assert value[..|groupText|] == groupText;
  }

  /** Each value read on its own. */
  function Parsed(values: seq<string>, format: string): (rs: seq<Result<Entry, Failure>>)
    ensures |rs| == |values| && forall i :: 0 <= i < |values| ==> rs[i] == ParseEntry(values[i], format)
  {
    seq(|values|, i requires 0 <= i < |values| => ParseEntry(values[i], format))
  }

  /** Every value read. */
  predicate AllRead(rs: seq<Result<Entry, Failure>>)
  {
    forall i :: 0 <= i < |rs| ==> rs[i].Ok?
  }

  /** Position `i` holds the first value that did not read, with error `e`. */
  predicate FirstFailure(rs: seq<Result<Entry, Failure>>, i: int, e: Failure)
  {
    0 <= i < |rs| && rs[i] == Err(e) && forall j :: 0 <= j < i ==> rs[j].Ok?
  }

  /** The loop of `parse_group_option` over values already read: each text appended to its group's list. */
  function Accumulate(rs: seq<Result<Entry, Failure>>): Result<map<int, seq<string>>, Failure>
  {
    if rs == [] then Ok(map[])
    else
      match Accumulate(rs[..|rs| - 1])
      case Err(e) => Err(e)
      case Ok(m) =>
        match rs[|rs| - 1]
        case Err(e) => Err(e)
        case Ok(entry) =>
          Ok(m[entry.group := (if entry.group in m then m[entry.group] else []) + [entry.text]])
  }

  /** The loop of `parse_title_option` over values already read: each text replaces its group's title. */
  function Overwrite(rs: seq<Result<Entry, Failure>>): Result<map<int, string>, Failure>
  {
    if rs == [] then Ok(map[])
    else
      match Overwrite(rs[..|rs| - 1])
      case Err(e) => Err(e)
      case Ok(m) =>
        match rs[|rs| - 1]
        case Err(e) => Err(e)
        case Ok(entry) => Ok(m[entry.group := entry.text])
  }

  /** `parse_group_option(values)`: the patterns of each group, in the order given. */
  function GroupOption(values: seq<string>): Result<map<int, seq<string>>, Failure>
  {
    Accumulate(Parsed(values, AssignFormat))
  }

  /** `parse_title_option(values)`: the title of each group, a later value replacing an earlier one. */
  function TitleOption(values: seq<string>): Result<map<int, string>, Failure>
  {
    Overwrite(Parsed(values, TitleFormat))
  }

  /** The texts of the entries that name group `g`, in order. */
  function TextsFor(rs: seq<Result<Entry, Failure>>, g: int): (texts: seq<string>)
    requires AllRead(rs)
    ensures |texts| <= |rs|
  {
    if rs == [] then []
    else
      var init := rs[..|rs| - 1];
      assert AllRead(init) by {
        assert forall i :: 0 <= i < |init| ==> init[i] == rs[i];
      }
      TextsFor(init, g) + (if rs[|rs| - 1].value.group == g then [rs[|rs| - 1].value.text] else [])
  }

  /** A group has texts exactly when some entry names it. */
  lemma {:induction false} TextsForNamed(rs: seq<Result<Entry, Failure>>, g: int)
    requires AllRead(rs)
    ensures TextsFor(rs, g) != [] <==> exists i :: 0 <= i < |rs| && rs[i].value.group == g
  {
    if rs != [] {
      var init := rs[..|rs| - 1];
      assert forall i :: 0 <= i < |init| ==> init[i] == rs[i];
      TextsForNamed(init, g);
    }
  }

  /**
   * Accumulating fails exactly when some value did not read, with the
   * error of the first; otherwise each group named by an entry maps to the
   * texts of the entries naming it, in order, and no other group is
   * present.
   */
  lemma {:induction false} AccumulateMeaning(rs: seq<Result<Entry, Failure>>)
    ensures Accumulate(rs).Ok? <==> AllRead(rs)
    ensures Accumulate(rs).Err? ==> exists i :: FirstFailure(rs, i, Accumulate(rs).error)
    ensures Accumulate(rs).Ok? ==> forall g ::
      && (g in Accumulate(rs).value <==> TextsFor(rs, g) != [])
      && (g in Accumulate(rs).value ==> Accumulate(rs).value[g] == TextsFor(rs, g))
  {
    if rs != [] {
      var n := |rs| - 1;
      var init := rs[..n];
      AccumulateMeaning(init);
      assert forall i :: 0 <= i < n ==> init[i] == rs[i];
      if Accumulate(init).Err? {
        var i :| FirstFailure(init, i, Accumulate(init).error);
        assert FirstFailure(rs, i, Accumulate(rs).error);
      } else if rs[n].Err? {
        assert FirstFailure(rs, n, Accumulate(rs).error);
      }
    }
  }

  /**
   * Overwriting fails exactly as accumulating does; otherwise every group
   * some entry names is present.
   */
  lemma {:induction false} OverwriteMeaning(rs: seq<Result<Entry, Failure>>)
    ensures Overwrite(rs).Ok? <==> AllRead(rs)
    ensures Overwrite(rs).Err? ==> exists i :: FirstFailure(rs, i, Overwrite(rs).error)
    ensures Overwrite(rs).Ok? ==> forall i :: 0 <= i < |rs| ==> rs[i].value.group in Overwrite(rs).value
  {
    if rs != [] {
      var n := |rs| - 1;
      var init := rs[..n];
      OverwriteMeaning(init);
      assert forall i :: 0 <= i < n ==> init[i] == rs[i];
      if Overwrite(init).Err? {
        var i :| FirstFailure(init, i, Overwrite(init).error);
        assert FirstFailure(rs, i, Overwrite(rs).error);
      } else if rs[n].Err? {
        assert FirstFailure(rs, n, Overwrite(rs).error);
      }
    }
  }

  /** The entry `i` is the last one naming group `g`, and carries `text`. */
  predicate LastFor(rs: seq<Result<Entry, Failure>>, g: int, text: string, i: int)
  {
    0 <= i < |rs| && rs[i] == Ok(Entry(g, text)) && forall j :: i < j < |rs| ==> !(rs[j].Ok? && rs[j].value.group == g)
  }

  /** Every group present maps to the text of the LAST entry naming it. */
  lemma {:induction false} OverwriteLastWins(rs: seq<Result<Entry, Failure>>)
    requires Overwrite(rs).Ok?
    ensures forall g :: g in Overwrite(rs).value ==> exists i :: LastFor(rs, g, Overwrite(rs).value[g], i)
  {
    if rs != [] {
      var n := |rs| - 1;
      var init := rs[..n];
      assert Overwrite(init).Ok?;
      OverwriteLastWins(init);
      var m := Overwrite(init).value;
      var m' := Overwrite(rs).value;
      forall g | g in m'
        ensures exists i :: LastFor(rs, g, m'[g], i)
      {
        if g == rs[n].value.group {
          assert LastFor(rs, g, m'[g], n);
        } else {
          var i :| LastFor(init, g, m[g], i);
          assert LastFor(rs, g, m'[g], i);
        }
      }
    }
  }

  /**
   * `parse_group_option`, stated on the option values themselves: it
   * fails exactly when some value does not read, with the first such
   * value's error; otherwise its groups are exactly those the values name,
   * each at least 1 and mapped to the non-empty list of its patterns in
   * the order given.
   */
  lemma GroupOptionMeaning(values: seq<string>)
    ensures GroupOption(values).Ok? <==> forall i :: 0 <= i < |values| ==> ParseEntry(values[i], AssignFormat).Ok?
    ensures GroupOption(values).Err? ==> exists i :: (0 <= i < |values|
      && ParseEntry(values[i], AssignFormat) == Err(GroupOption(values).error)
      && forall j :: 0 <= j < i ==> ParseEntry(values[j], AssignFormat).Ok?)
    ensures GroupOption(values).Ok? ==> forall g ::
      g in GroupOption(values).value <==> exists i :: 0 <= i < |values| && ParseEntry(values[i], AssignFormat).value.group == g
    ensures GroupOption(values).Ok? ==> forall g :: g in GroupOption(values).value ==>
      && g >= 1
      && GroupOption(values).value[g] == TextsFor(Parsed(values, AssignFormat), g)
      && GroupOption(values).value[g] != []
  {
    var rs := Parsed(values, AssignFormat);
    AccumulateMeaning(rs);
    if GroupOption(values).Ok? {
      forall g
        ensures g in GroupOption(values).value <==> exists i :: 0 <= i < |values| && ParseEntry(values[i], AssignFormat).value.group == g
      {
        TextsForNamed(rs, g);
      }
      forall g | g in GroupOption(values).value
        ensures g >= 1
      {
        var i :| 0 <= i < |values| && ParseEntry(values[i], AssignFormat).value.group == g;
        ParseEntryShape(values[i], AssignFormat);
      }
    }
  }

  /**
   * `parse_title_option`, stated on the option values themselves: it
   * fails exactly when some value does not read; otherwise every group a
   * value names is present, and each maps to the text of the last value
   * naming it.
   */
  lemma TitleOptionMeaning(values: seq<string>)
    ensures TitleOption(values).Ok? <==> forall i :: 0 <= i < |values| ==> ParseEntry(values[i], TitleFormat).Ok?
    ensures TitleOption(values).Ok? ==> forall i :: 0 <= i < |values| ==>
      ParseEntry(values[i], TitleFormat).value.group in TitleOption(values).value
    ensures TitleOption(values).Ok? ==> forall g :: g in TitleOption(values).value ==>
      exists i :: LastFor(Parsed(values, TitleFormat), g, TitleOption(values).value[g], i)
  {
    var rs := Parsed(values, TitleFormat);
    OverwriteMeaning(rs);
    if TitleOption(values).Ok? {
      OverwriteLastWins(rs);
    }
  }

  /** Once the entries read so far fail, the whole list fails with the same error. */
  lemma {:induction false} AccumulateStaysFailed(rs: seq<Result<Entry, Failure>>, k: nat)
    requires k <= |rs| && Accumulate(rs[..k]).Err?
    ensures Accumulate(rs) == Accumulate(rs[..k])
    decreases |rs| - k
  {
    if k < |rs| {
      assert rs[..k + 1][..k] == rs[..k];
      AccumulateStaysFailed(rs, k + 1);
    } else {
      assert rs[..k] == rs;
    }
  }

  /** Once the entries read so far fail, the whole list fails with the same error. */
  lemma {:induction false} OverwriteStaysFailed(rs: seq<Result<Entry, Failure>>, k: nat)
    requires k <= |rs| && Overwrite(rs[..k]).Err?
    ensures Overwrite(rs) == Overwrite(rs[..k])
    decreases |rs| - k
  {
    if k < |rs| {
      assert rs[..k + 1][..k] == rs[..k];
      OverwriteStaysFailed(rs, k + 1);
    } else {
      assert rs[..k] == rs;
    }
  }

  /** One more entry read: its error ends the accumulation, its text is appended to its group's list. */
  lemma AccumulateNext(rs: seq<Result<Entry, Failure>>, i: nat)
    requires i < |rs| && Accumulate(rs[..i]).Ok?
    ensures rs[i].Err? ==> Accumulate(rs[..i + 1]) == Err(rs[i].error)
    ensures rs[i].Ok? ==> var m := Accumulate(rs[..i]).value; var g := rs[i].value.group;
      Accumulate(rs[..i + 1]) == Ok(m[g := (if g in m then m[g] else []) + [rs[i].value.text]])
  {
    assert rs[..i + 1][..i] == rs[..i];
  }

  /** One more entry read: its error ends the overwriting, its text replaces its group's title. */
  lemma OverwriteNext(rs: seq<Result<Entry, Failure>>, i: nat)
    requires i < |rs| && Overwrite(rs[..i]).Ok?
    ensures rs[i].Err? ==> Overwrite(rs[..i + 1]) == Err(rs[i].error)
    ensures rs[i].Ok? ==> Overwrite(rs[..i + 1]) == Ok(Overwrite(rs[..i]).value[rs[i].value.group := rs[i].value.text])
  {
    assert rs[..i + 1][..i] == rs[..i];
  }

  /** `parse_group_option(values)`, value by value. */
  method ParseGroupOption(values: seq<string>) returns (r: Result<map<int, seq<string>>, Failure>)
    ensures r == GroupOption(values)
  {
    ghost var rs := Parsed(values, AssignFormat);
    var result: map<int, seq<string>> := map[];
    for i := 0 to |values|
      invariant Accumulate(rs[..i]) == Ok(result)
    {
      var entry := ParseEntry(values[i], AssignFormat);
      assert entry == rs[i];
      AccumulateNext(rs, i);
      if entry.Err? {
        AccumulateStaysFailed(rs, i + 1);
        return Err(entry.error);
      }
      var group := entry.value.group;
      var patterns := if group in result then result[group] else [];
      result := result[group := patterns + [entry.value.text]];
    }
    assert rs[..|values|] == rs;
    return Ok(result);
  }

  /** `parse_title_option(values)`, value by value. */
  method ParseTitleOption(values: seq<string>) returns (r: Result<map<int, string>, Failure>)
    ensures r == TitleOption(values)
  {
    ghost var rs := Parsed(values, TitleFormat);
    var result: map<int, string> := map[];
    for i := 0 to |values|
      invariant Overwrite(rs[..i]) == Ok(result)
    {
      var entry := ParseEntry(values[i], TitleFormat);
      assert entry == rs[i];
      OverwriteNext(rs, i);
      if entry.Err? {
        OverwriteStaysFailed(rs, i + 1);
        return Err(entry.error);
      }
      result := result[entry.value.group := entry.value.text];
    }
    assert rs[..|values|] == rs;
    return Ok(result);
  }

  /** The icon the plan display puts in front of a file of the given status. */
  function StatusIcon(status: char): (icon: string)
    ensures |icon| == 1
    ensures ValidStatus(status) <==> icon != "?"
  {
    match status
    case 'A' => "+"
    case 'M' => "~"
    case 'D' => "-"
    case 'R' => "→"
    case 'C' => "©"
    case 'T' => "T"
    case _ => "?"
  }

  /** The six statuses have six different icons. */
  lemma StatusIconsDistinct(a: char, b: char)
    requires ValidStatus(a) && ValidStatus(b) && a != b
    ensures StatusIcon(a) != StatusIcon(b)
  {
  }
}
