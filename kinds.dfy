/**
 * Kind selection in `parse_file`: the file's base name is searched for the
 * substrings "passwd", "shadow", "group" and "sudoers", in that order, and the
 * first one present decides how the file is parsed; a name with none of them
 * is parsed as a generic log.
 */
module Kinds {
  import opened Strings

  datatype Kind = Passwd | Shadow | Group | Sudoers | GenericLog

  /** Position of a kind in the order its substring is tried; the generic log comes last. */
  function Rank(k: Kind): nat
  {
    match k
    case Passwd => 0
    case Shadow => 1
    case Group => 2
    case Sudoers => 3
    case GenericLog => 4
  }

  /** The substring of the base name that selects a kind. */
  function Keyword(k: Kind): string
    requires k != GenericLog
  {
    match k
    case Passwd => "passwd"
    case Shadow => "shadow"
    case Group => "group"
    case Sudoers => "sudoers"
  }

  /** The if/elif chain over the base name. The selected kind's keyword is in
      the name, and no keyword tried before it is. */
  function Classify(name: string): (k: Kind)
    ensures k != GenericLog ==> Contains(name, Keyword(k))
    ensures forall j: Kind :: j != GenericLog && Rank(j) < Rank(k) ==> !Contains(name, Keyword(j))
  {
    if Contains(name, "passwd") then Passwd
    else if Contains(name, "shadow") then Shadow
    else if Contains(name, "group") then Group
    else if Contains(name, "sudoers") then Sudoers
    else GenericLog
  }

  /** The first-match rule determines the kind: any kind whose keyword is in the
      name while every earlier keyword is absent is the one selected. */
  lemma FirstMatchIsUnique(name: string, k: Kind)
    requires k != GenericLog ==> Contains(name, Keyword(k))
    requires forall j: Kind :: j != GenericLog && Rank(j) < Rank(k) ==> !Contains(name, Keyword(j))
    ensures Classify(name) == k
  {
  }

  /** A name containing "passwd" is a password database whatever else it contains. */
  lemma PasswdWins(before: string, after: string)
    ensures Classify(before + "passwd" + after) == Passwd
  {
    ContainsInfix(before, "passwd", after);
  }

  /** Without "passwd", a name containing "shadow" is a shadow database,
      so "gshadow" and "shadow.group" both are. */
  lemma ShadowBeatsGroupAndSudoers(before: string, after: string)
    requires !Contains(before + "shadow" + after, "passwd")
    ensures Classify(before + "shadow" + after) == Shadow
  {
    ContainsInfix(before, "shadow", after);
  }

  /** Without "passwd" or "shadow", "group" wins over "sudoers". */
  lemma GroupBeatsSudoers(before: string, after: string)
    requires !Contains(before + "group" + after, "passwd")
    requires !Contains(before + "group" + after, "shadow")
    ensures Classify(before + "group" + after) == Group
  {
    ContainsInfix(before, "group", after);
  }

  /** A name with none of the four substrings takes the generic-log path. */
  lemma NoKeywordIsGenericLog(name: string)
    requires forall j: Kind :: j != GenericLog ==> !Contains(name, Keyword(j))
    ensures Classify(name) == GenericLog
  {
  }

  /** Concrete names: "passwd_shadow" is a password database and "gshadow" a shadow one. */
  lemma ClassifyExamples()
    ensures Classify("passwd_shadow") == Passwd
    ensures Classify("gshadow") == Shadow
  {
    PasswdWins("", "_shadow");
    assert "" + "passwd" + "_shadow" == "passwd_shadow";
    assert !Contains("gshadow", "passwd") by {
      ContainsIff("gshadow", "passwd");
      assert "gshadow"[0..6][0] == 'g';
      assert "gshadow"[1..7][0] == 's';
    }
    assert "g" + "shadow" + "" == "gshadow";
    ShadowBeatsGroupAndSudoers("g", "");
  }
}
