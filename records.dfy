/**
 * The record extractor: `parse_structured`, which splits every cleaned line
 * on ':' and projects the fields of its kind, and `parse_generic_log`, which
 * keeps every cleaned line as it is.  A file's text is given as the sequence
 * of its already-decoded lines.
 */
module Records {
  import opened Options
  import opened Strings
  import opened Kinds

  /** One record, shaped by the kind of the file it came from. */
  datatype Record =
    | PasswdEntry(user: string, uid: string, gid: string, desc: string, home: string, shell: string)
    | ShadowEntry(user: string, hasHash: bool)
    | GroupEntry(group: string, gid: string, members: seq<string>)
    | SudoRule(rule: string)
    | LogLine(line: string)

  /** The lines both extractors work on: each line stripped, blank ones dropped. */
  function CleanLines(raw: seq<string>): (lines: seq<string>)
    ensures |lines| <= |raw|
    ensures forall i :: 0 <= i < |lines| ==> lines[i] != ""
  {
    if raw == [] then []
    else
      var rest := CleanLines(raw[1..]);
      var l := Strip(raw[0]);
      if l == "" then rest else [l] + rest
  }

  /** Cleaned lines are already stripped. */
  lemma {:induction false} CleanLinesStripped(raw: seq<string>)
    ensures forall i :: 0 <= i < |CleanLines(raw)| ==> Strip(CleanLines(raw)[i]) == CleanLines(raw)[i]
  {
    if raw != [] {
      CleanLinesStripped(raw[1..]);
      StripIdempotent(raw[0]);
    }
  }

  /** Cleaning works line by line. */
  lemma {:induction false} CleanLinesAppend(a: seq<string>, b: seq<string>)
    ensures CleanLines(a + b) == CleanLines(a) + CleanLines(b)
  {
    if a != [] {
      assert (a + b)[0] == a[0];
      assert (a + b)[1..] == a[1..] + b;
      CleanLinesAppend(a[1..], b);
    } else {
      assert a + b == b;
    }
  }

  /** One line cleans to nothing when it is all whitespace, and to its stripped text otherwise. */
  lemma CleanLine(l: string)
    ensures CleanLines([l]) == if AllSpace(l) then [] else [Strip(l)]
  {
    StripEmptyIffBlank(l);
    assert [l][1..] == [];
  }

  /** A blank or whitespace-only line can be removed without changing the cleaned lines. */
  lemma BlankLineDropped(a: seq<string>, l: string, b: seq<string>)
    requires AllSpace(l)
    ensures CleanLines(a + [l] + b) == CleanLines(a + b)
  {
    CleanLinesAppend(a + [l], b);
    CleanLinesAppend(a, [l]);
    CleanLinesAppend(a, b);
    CleanLine(l);
  }

  /** Minimum number of colon fields a line needs to give a record of each kind. */
  function MinFields(k: Kind): nat
  {
    match k
    case Passwd => 7
    case Shadow => 2
    case Group => 3
    case Sudoers => 0
    case GenericLog => 0
  }

  /** What one cleaned line contributes in `parse_structured`: the branch of the
      if/elif chain it takes, or nothing when no branch applies. */
  function LineRecord(kind: Kind, line: string): Option<Record>
  {
    var parts := Split(line, ':');
    if kind == Passwd && |parts| >= 7 then
      Some(PasswdEntry(parts[0], parts[2], parts[3], parts[4], parts[5], parts[6]))
    else if kind == Shadow && |parts| >= 2 then
      Some(ShadowEntry(parts[0], parts[1] != "*" && parts[1] != "!"))
    else if kind == Group && |parts| >= 3 then
      Some(GroupEntry(parts[0], parts[2], if |parts| > 3 then Split(parts[3], ',') else []))
    else if kind == Sudoers then
      Some(SudoRule(line))
    else
      None
  }

  function OptionToSeq(o: Option<Record>): seq<Record>
  {
    if o.Some? then [o.value] else []
  }

  /** The records `parse_structured` collects from the cleaned lines, in line order. */
  function Extract(kind: Kind, lines: seq<string>): seq<Record>
  {
    if lines == [] then [] else OptionToSeq(LineRecord(kind, lines[0])) + Extract(kind, lines[1..])
  }

  /** `parse_structured`: the loop that appends one record per qualifying line. */
  method ParseStructured(kind: Kind, raw: seq<string>) returns (result: seq<Record>)
    ensures result == Extract(kind, CleanLines(raw))
  {
    var lines := CleanLines(raw);
    result := [];
    for i := 0 to |lines|
      invariant result == Extract(kind, lines[..i])
    {
      var line := lines[i];
      var parts := Split(line, ':');
      if kind == Passwd && |parts| >= 7 {
        result := result + [PasswdEntry(parts[0], parts[2], parts[3], parts[4], parts[5], parts[6])];
      } else if kind == Shadow && |parts| >= 2 {
        result := result + [ShadowEntry(parts[0], parts[1] != "*" && parts[1] != "!")];
      } else if kind == Group && |parts| >= 3 {
        result := result + [GroupEntry(parts[0], parts[2], if |parts| > 3 then Split(parts[3], ',') else [])];
      } else if kind == Sudoers {
        result := result + [SudoRule(line)];
      }
      assert lines[..i + 1] == lines[..i] + [line];
      ExtractAppend(kind, lines[..i], [line]);
    }
    assert lines[..|lines|] == lines;
  }

  /** `parse_generic_log`: one record per cleaned line, the line itself, in order. */
  function ParseGenericLog(raw: seq<string>): (r: seq<Record>)
    ensures |r| == |CleanLines(raw)|
    ensures forall i :: 0 <= i < |r| ==> r[i] == LogLine(CleanLines(raw)[i])
  {
    if raw == [] then []
    else
      var l := Strip(raw[0]);
      if l == "" then ParseGenericLog(raw[1..]) else [LogLine(l)] + ParseGenericLog(raw[1..])
  }

  // ---------------------------------------------------------------------
  // Properties of the extractor

  /** Extraction works line by line, so records keep the order of their lines. */
  lemma {:induction false} ExtractAppend(kind: Kind, a: seq<string>, b: seq<string>)
    ensures Extract(kind, a + b) == Extract(kind, a) + Extract(kind, b)
  {
    if a != [] {
      assert (a + b)[0] == a[0];
      assert (a + b)[1..] == a[1..] + b;
      ExtractAppend(kind, a[1..], b);
    } else {
      assert a + b == b;
    }
  }

  /** At most one record per line. */
  lemma {:induction false} ExtractAtMostOnePerLine(kind: Kind, lines: seq<string>)
    ensures |Extract(kind, lines)| <= |lines|
  {
    if lines != [] {
      ExtractAtMostOnePerLine(kind, lines[1..]);
    }
  }

  /** A record is extracted exactly when some line gives it. */
  lemma {:induction false} ExtractMembership(kind: Kind, lines: seq<string>, r: Record)
    ensures r in Extract(kind, lines) <==> exists i :: 0 <= i < |lines| && LineRecord(kind, lines[i]) == Some(r)
  {
    if lines != [] {
      ExtractMembership(kind, lines[1..], r);
      if i :| 0 <= i < |lines[1..]| && LineRecord(kind, lines[1..][i]) == Some(r) {
        assert LineRecord(kind, lines[i + 1]) == Some(r);
      }
      if i :| 0 <= i < |lines| && LineRecord(kind, lines[i]) == Some(r) {
        if i > 0 {
          assert LineRecord(kind, lines[1..][i - 1]) == Some(r);
        }
      }
    }
  }

  /** For sudoers files every cleaned line is one rule, verbatim and in order. */
  lemma {:induction false} SudoersKeepsEveryLine(lines: seq<string>)
    ensures |Extract(Sudoers, lines)| == |lines|
    ensures forall i :: 0 <= i < |lines| ==> Extract(Sudoers, lines)[i] == SudoRule(lines[i])
  {
    if lines != [] {
      SudoersKeepsEveryLine(lines[1..]);
    }
  }

  /** A line gives a record exactly when it has the kind's minimum number of colon
      fields (always, for sudoers); a generic-log kind never reaches this loop. */
  lemma LineRecordPresent(kind: Kind, line: string)
    ensures LineRecord(kind, line).Some? <==>
            kind != GenericLog && Count(line, ':') + 1 >= MinFields(kind)
  {
  }

  /** A password line gives user, uid, gid, description, home and shell from fields
      0 and 2 to 6; field 1 and any fields after the seventh are ignored. */
  lemma PasswdLine(fields: seq<string>)
    requires |fields| >= 7 && FreeOf(fields, ':')
    ensures LineRecord(Passwd, Join(fields, ':'))
         == Some(PasswdEntry(fields[0], fields[2], fields[3], fields[4], fields[5], fields[6]))
  {
    SplitJoin(fields, ':');
  }

  /** A shadow line gives the user and whether the second field is a hash,
      which it is unless it is exactly "*" or "!". */
  lemma ShadowLine(fields: seq<string>)
    requires |fields| >= 2 && FreeOf(fields, ':')
    ensures LineRecord(Shadow, Join(fields, ':'))
         == Some(ShadowEntry(fields[0], fields[1] != "*" && fields[1] != "!"))
  {
    SplitJoin(fields, ':');
  }

  /** A group line with a fourth field gives its comma-separated members; any
      fields after the fourth are ignored. */
  lemma GroupLine(group: string, password: string, gid: string, members: seq<string>, rest: seq<string>)
    requires |members| >= 1 && FreeOf(members, ',') && FreeOf(members, ':')
    requires FreeOf([group, password, gid] + rest, ':')
    ensures LineRecord(Group, Join([group, password, gid, Join(members, ',')] + rest, ':'))
         == Some(GroupEntry(group, gid, members))
  {
    var fields := [group, password, gid, Join(members, ',')] + rest;
    JoinFreeOf(members, ',', ':');
    assert FreeOf(fields, ':') by {
      forall i | 0 <= i < |fields| ensures ':' !in fields[i] {
        if i > 3 {
          assert fields[i] == ([group, password, gid] + rest)[i - 1];
        } else if i < 3 {
          assert fields[i] == ([group, password, gid] + rest)[i];
        }
      }
    }
    SplitJoin(fields, ':');
    SplitJoin(members, ',');
  }

  /** A group line of exactly three fields has no members. */
  lemma GroupLineWithoutMembers(group: string, password: string, gid: string)
    requires FreeOf([group, password, gid], ':')
    ensures LineRecord(Group, Join([group, password, gid], ':')) == Some(GroupEntry(group, gid, []))
  {
    SplitJoin([group, password, gid], ':');
  }

  /** Joining strings that avoid a character gives a string that avoids it,
      provided the separator is a different character. */
  lemma {:induction false} JoinFreeOf(parts: seq<string>, sep: char, c: char)
    requires sep != c && FreeOf(parts, c)
    ensures c !in Join(parts, sep)
  {
    if |parts| > 1 {
      assert FreeOf(parts[1..], c) by {
        forall i | 0 <= i < |parts[1..]| ensures c !in parts[1..][i] {
          assert parts[1..][i] == parts[i + 1];
        }
      }
      JoinFreeOf(parts[1..], sep, c);
    }
  }

  /** A trailing colon after the gid is a fourth field that is empty, which
      gives one empty member rather than none. */
  lemma GroupTrailingColon(group: string, password: string, gid: string)
    requires FreeOf([group, password, gid], ':')
    ensures LineRecord(Group, group + [':'] + password + [':'] + gid + [':'])
         == Some(GroupEntry(group, gid, [""]))
  {
    var fields := [group, password, gid, ""];
    assert FreeOf(fields, ':');
    assert Join(fields[3..], ':') == "";
    assert Join(fields[2..], ':') == gid + [':'];
    assert Join(fields[1..], ':') == password + [':'] + gid + [':'];
    assert Join(fields, ':') == group + [':'] + password + [':'] + gid + [':'];
    SplitJoin(fields, ':');
    SplitSingle("", ',');
  }

  /** Only "*" and "!" mark a missing hash: "!!" and an empty field both count as a hash. */
  lemma ShadowHashMarkers(user: string, hash: string, rest: seq<string>)
    requires FreeOf([user, hash] + rest, ':')
    ensures LineRecord(Shadow, Join([user, hash] + rest, ':')).Some?
    ensures hash == "*" || hash == "!" ==> !LineRecord(Shadow, Join([user, hash] + rest, ':')).value.hasHash
    ensures hash == "!!" || hash == "" ==> LineRecord(Shadow, Join([user, hash] + rest, ':')).value.hasHash
  {
    ShadowLine([user, hash] + rest);
  }
}
