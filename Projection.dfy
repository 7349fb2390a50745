/**
 * The projector of ui/app/api/data/route.ts: `transformToCommunityMembers`, which turns
 * knowledge-graph entries into directory members, and the category aggregation of `GET`,
 * which collects every concept label of every entry into a sorted list of filter facets.
 */
module Projection {
  import opened Wrappers
  import opened Collections
  import opened Text
  import opened KnowledgeGraph

  // ================================================================ keywords

  /** The label of one mapping when it is truthy (neither `null` nor `''`). */
  function LabelOf(m: ConceptMapping): seq<string> {
    match m.conceptLabel
    case Some(l) => if l != "" then [l] else []
    case None => []
  }

  /** `list.map(m => m.concept_label).filter(Boolean)`. */
  function Labels(list: seq<ConceptMapping>): seq<string> {
    if list == [] then [] else Labels(list[..|list| - 1]) + LabelOf(list[|list| - 1])
  }

  /** `list.map(m => m.concept_label)`, with a `null` label read as the falsy `''`. */
  function ConceptLabels(list: seq<ConceptMapping>): (r: seq<string>)
    ensures |r| == |list|
  {
    seq(|list|, j requires 0 <= j < |list| =>
      match list[j].conceptLabel
      case Some(l) => l
      case None => "")
  }

  /**
   * `Labels` is `filter(Boolean)` after `map`: the truthy labels in list order, each as often
   * as it occurs.
   */
  lemma {:induction false} LabelsSpec(list: seq<ConceptMapping>)
    ensures Labels(list) == NonEmpty(ConceptLabels(list))
  {
    if list != [] {
      var init, last := list[..|list| - 1], list[|list| - 1];
      LabelsSpec(init);
      assert ConceptLabels(list) == ConceptLabels(init) + ConceptLabels([last]);
      NonEmptyAppend(ConceptLabels(init), ConceptLabels([last]));
      assert NonEmpty(ConceptLabels([last])) == LabelOf(last) by {
        assert ConceptLabels([last])[1..] == [];
      }
    }
  }

  /** A label is listed exactly when some mapping carries it and it is non-empty. */
  lemma {:induction false} LabelsIff(list: seq<ConceptMapping>, l: string)
    ensures l in Labels(list) <==> l != "" && exists j :: 0 <= j < |list| && list[j].conceptLabel == Some(l)
  {
    if list != [] {
      var init := list[..|list| - 1];
      LabelsIff(init, l);
      if exists j :: 0 <= j < |init| && init[j].conceptLabel == Some(l) {
        var j :| 0 <= j < |init| && init[j].conceptLabel == Some(l);
        assert list[j] == init[j];
      }
      if exists j :: 0 <= j < |list| && list[j].conceptLabel == Some(l) {
        var j :| 0 <= j < |list| && list[j].conceptLabel == Some(l);
        if j < |init| {
          assert init[j] == list[j];
        }
      }
    }
  }

  /** `Array.from(new Set(s))`: the distinct elements of `s`, in order of first occurrence. */
  function Dedup(s: seq<string>): (r: seq<string>)
    ensures Distinct(r)
    ensures forall x :: x in r <==> x in s
  {
    if s == [] then []
    else
      var d := Dedup(s[..|s| - 1]);
      var x := s[|s| - 1];
      assert forall y :: y in s <==> y in s[..|s| - 1] || y == x by {
        assert s == s[..|s| - 1] + [x];
      }
      if x in d then d else d + [x]
  }

  /** The order `Dedup` keeps is the order in which the elements first occur. */
  lemma {:induction false} DedupFirstOccurrenceOrder(s: seq<string>)
    ensures forall i, j :: 0 <= i < j < |Dedup(s)| ==> IndexOf(s, Dedup(s)[i]) < IndexOf(s, Dedup(s)[j])
  {
    if s != [] {
      var p, x := s[..|s| - 1], s[|s| - 1];
      assert s == p + [x];
      var d := Dedup(p);
      DedupFirstOccurrenceOrder(p);
      forall y | y in p ensures IndexOf(s, y) == IndexOf(p, y) {
        IndexOfAppend(p, [x], y);
      }
      if x !in d {
        assert IndexOf(s, x) == |p|;
        forall i | 0 <= i < |d| ensures IndexOf(s, d[i]) < IndexOf(s, x) {
          assert IndexOf(s, d[i]) == IndexOf(p, d[i]);
        }
      }
    }
  }

  /** The spread of the three label lists, `Expertise`, then `Interest`, then `Role`. */
  function RawKeywords(e: Entry): seq<string> {
    Labels(MappingList(e, "Expertise")) + Labels(MappingList(e, "Interest")) + Labels(MappingList(e, "Role"))
  }

  function Keywords(e: Entry): seq<string> {
    Dedup(NonEmpty(RawKeywords(e)))
  }

  /** The attributes whose mappings contribute keywords. */
  predicate KeywordField(name: string) {
    name == "Expertise" || name == "Interest" || name == "Role"
  }

  /**
   * The keywords are duplicate-free, are exactly the non-empty labels of the `Expertise`,
   * `Interest` and `Role` mappings, and come in order of first occurrence.
   */
  lemma KeywordsSpec(e: Entry)
    ensures Distinct(Keywords(e))
    ensures forall l :: l in Keywords(e) <==>
      l != "" && (exists name, j :: KeywordField(name) && name in e.mappings &&
                   0 <= j < |e.mappings[name]| && e.mappings[name][j].conceptLabel == Some(l))
    ensures forall i, j :: 0 <= i < j < |Keywords(e)| ==>
      IndexOf(RawKeywords(e), Keywords(e)[i]) < IndexOf(RawKeywords(e), Keywords(e)[j])
  {
    var raw := RawKeywords(e);
    forall x | x in raw ensures x != "" {
      LabelsIff(MappingList(e, "Expertise"), x);
      LabelsIff(MappingList(e, "Interest"), x);
      LabelsIff(MappingList(e, "Role"), x);
    }
    NonEmptyOfNonEmpty(raw);
    DedupFirstOccurrenceOrder(raw);
    forall l ensures l in Keywords(e) <==>
      l != "" && (exists name, j :: KeywordField(name) && name in e.mappings &&
                   0 <= j < |e.mappings[name]| && e.mappings[name][j].conceptLabel == Some(l))
    {
      LabelsIff(MappingList(e, "Expertise"), l);
      LabelsIff(MappingList(e, "Interest"), l);
      LabelsIff(MappingList(e, "Role"), l);
    }
  }

  /** The second `filter(Boolean)` (line 106) removes nothing: the labels are already non-empty. */
  lemma {:induction false} NonEmptyOfNonEmpty(raw: seq<string>)
    requires forall x :: x in raw ==> x != ""
    ensures NonEmpty(raw) == raw
  {
    if raw != [] {
      assert raw[0] in raw;
      assert forall x :: x in raw[1..] ==> x in raw;
      NonEmptyOfNonEmpty(raw[1..]);
    }
  }

  // ================================================================ classification

  /** `type`: the first rule on the lowered role that matches. */
  function MemberType(role: string): string {
    var r := Lower(role);
    if Contains(r, "student") || Contains(r, "graduate") then "Student"
    else if Contains(r, "researcher") || Contains(r, "research") then "Researcher"
    else if Contains(r, "professor") || Contains(r, "faculty") then "Faculty"
    else if Contains(r, "developer") || Contains(r, "engineer") then "Developer"
    else "Community Member"
  }

  lemma ResearcherContainsResearch(s: string)
    requires Contains(s, "researcher")
    ensures Contains(s, "research")
  {
    assert OccursAt("researcher", "research", 0);
    ContainsTransitive(s, "researcher", "research");
  }

  /**
   * Each label is chosen exactly when its rule is the first to match; the "researcher" test
   * adds nothing to the "research" test.
   */
  lemma MemberTypeSpec(role: string)
    ensures MemberType(role) in {"Student", "Researcher", "Faculty", "Developer", "Community Member"}
    ensures var r := Lower(role);
      var student := Contains(r, "student") || Contains(r, "graduate");
      var research := Contains(r, "research");
      var faculty := Contains(r, "professor") || Contains(r, "faculty");
      var developer := Contains(r, "developer") || Contains(r, "engineer");
      (MemberType(role) == "Student" <==> student) &&
      (MemberType(role) == "Researcher" <==> !student && research) &&
      (MemberType(role) == "Faculty" <==> !student && !research && faculty) &&
      (MemberType(role) == "Developer" <==> !student && !research && !faculty && developer) &&
      (MemberType(role) == "Community Member" <==> !student && !research && !faculty && !developer)
  {
    if Contains(Lower(role), "researcher") {
      ResearcherContainsResearch(Lower(role));
    }
  }

  /** Either of the two fields, lowered, contains `word`. */
  predicate Mentions(expertise: string, interest: string, word: string) {
    Contains(Lower(expertise), word) || Contains(Lower(interest), word)
  }

  /** `programmingLanguage`: the first of python, r, matlab, git mentioned. */
  function ProgrammingLanguage(expertise: string, interest: string): string {
    if Mentions(expertise, interest, "python") then "Python"
    else if Mentions(expertise, interest, "r") then "R"
    else if Mentions(expertise, interest, "matlab") then "MATLAB"
    else if Mentions(expertise, interest, "git") then "Git"
    else ""
  }

  /** `platform`: the first of jupyter, rstudio, matlab mentioned, else `'NA'`. */
  function Platform(expertise: string, interest: string): string {
    if Mentions(expertise, interest, "jupyter") then "Jupyter"
    else if Mentions(expertise, interest, "rstudio") then "RStudio"
    else if Mentions(expertise, interest, "matlab") then "MATLAB"
    else "NA"
  }

  /**
   * Each language is chosen exactly when its word is the first of python, r, matlab, git
   * mentioned; the single-letter rule makes any text with an `r` and without `python` yield `R`,
   * so `MATLAB` and `Git` are reached only by texts without `r`.
   */
  lemma ProgrammingLanguageSpec(expertise: string, interest: string)
    ensures ProgrammingLanguage(expertise, interest) in {"", "Python", "R", "MATLAB", "Git"}
    ensures ProgrammingLanguage(expertise, interest) == "Python" <==> Mentions(expertise, interest, "python")
    ensures ProgrammingLanguage(expertise, interest) == "R" <==>
      !Mentions(expertise, interest, "python") && Mentions(expertise, interest, "r")
    ensures ProgrammingLanguage(expertise, interest) == "MATLAB" <==>
      !Mentions(expertise, interest, "python") && !Mentions(expertise, interest, "r") &&
      Mentions(expertise, interest, "matlab")
    ensures ProgrammingLanguage(expertise, interest) == "Git" <==>
      !Mentions(expertise, interest, "python") && !Mentions(expertise, interest, "r") &&
      !Mentions(expertise, interest, "matlab") && Mentions(expertise, interest, "git")
    ensures ProgrammingLanguage(expertise, interest) in {"MATLAB", "Git"} ==>
      !Contains(Lower(expertise), "r") && !Contains(Lower(interest), "r")
    ensures ProgrammingLanguage(expertise, interest) == "" <==>
      !Mentions(expertise, interest, "python") && !Mentions(expertise, interest, "r") &&
      !Mentions(expertise, interest, "matlab") && !Mentions(expertise, interest, "git")
  {
  }

  /**
   * Each platform is chosen exactly when it is the first of jupyter, rstudio, matlab mentioned;
   * `NA` exactly when none is.
   */
  lemma PlatformSpec(expertise: string, interest: string)
    ensures Platform(expertise, interest) in {"NA", "Jupyter", "RStudio", "MATLAB"}
    ensures Platform(expertise, interest) == "NA" <==>
      !Mentions(expertise, interest, "jupyter") && !Mentions(expertise, interest, "rstudio") &&
      !Mentions(expertise, interest, "matlab")
    ensures Platform(expertise, interest) == "Jupyter" <==> Mentions(expertise, interest, "jupyter")
    ensures Platform(expertise, interest) == "RStudio" <==>
      !Mentions(expertise, interest, "jupyter") && Mentions(expertise, interest, "rstudio")
    ensures Platform(expertise, interest) == "MATLAB" <==>
      !Mentions(expertise, interest, "jupyter") && !Mentions(expertise, interest, "rstudio") &&
      Mentions(expertise, interest, "matlab")
  {
  }

  /**
   * A consequence of the single-letter rule: "jupyter" and "rstudio" both contain an `r`, so a
   * member on Jupyter or RStudio is always given the language Python or R.
   */
  lemma PlatformForcesLanguage(expertise: string, interest: string)
    requires Platform(expertise, interest) in {"Jupyter", "RStudio"}
    ensures ProgrammingLanguage(expertise, interest) in {"Python", "R"}
  {
    assert OccursAt("jupyter", "r", 6);
    assert OccursAt("rstudio", "r", 0);
    var e, i := Lower(expertise), Lower(interest);
    if Contains(e, "jupyter") {
      ContainsTransitive(e, "jupyter", "r");
    } else if Contains(i, "jupyter") {
      ContainsTransitive(i, "jupyter", "r");
    } else if Contains(e, "rstudio") {
      ContainsTransitive(e, "rstudio", "r");
    } else {
      ContainsTransitive(i, "rstudio", "r");
    }
  }

  // ================================================================ description

  /** `${value ? `${prefix}${value}${tail}` : ''}`. */
  function Segment(prefix: string, value: string, tail: string): string {
    if value != "" then prefix + value + tail else ""
  }

  /** The template literal `Role: … . Expertise: … . Interests: …`, before trimming. */
  function Synthesized(role: string, expertise: string, interest: string): string {
    Segment("Role: ", role, ". ") + Segment("Expertise: ", expertise, ". ") + Segment("Interests: ", interest, "")
  }

  /** `note || `Role: … . Expertise: … . Interests: …`.trim()`. */
  function Description(note: string, role: string, expertise: string, interest: string): string {
    if note != "" then note else Trim(Synthesized(role, expertise, interest))
  }

  /** The synthesized text is empty or starts with the `R`, `E` or `I` of its first segment. */
  lemma SynthesizedStart(role: string, expertise: string, interest: string)
    ensures var t := Synthesized(role, expertise, interest); t == [] || !IsSpace(t[0])
  {
    var segR := Segment("Role: ", role, ". ");
    var segE := Segment("Expertise: ", expertise, ". ");
    var segI := Segment("Interests: ", interest, "");
    var t := segR + segE + segI;
    if role != "" {
      assert segR[0] == 'R';
      assert t[0] == segR[0];
    } else if expertise != "" {
      assert segE[0] == 'E';
      assert t == segE + segI;
    } else if interest != "" {
      assert segI[0] == 'I';
      assert t == segI;
    }
  }

  /**
   * Trimming only cuts trailing white space from the synthesized text; when the last present
   * field does not end in white space, the description is the full text of every present
   * segment, with only the space after a final period dropped.
   */
  lemma DescriptionText(role: string, expertise: string, interest: string)
    ensures Description("", role, expertise, interest) == TrimEnd(Synthesized(role, expertise, interest))
    ensures interest != "" && !IsSpace(interest[|interest| - 1]) ==>
      Description("", role, expertise, interest) ==
        Segment("Role: ", role, ". ") + Segment("Expertise: ", expertise, ". ") + "Interests: " + interest
    ensures interest == "" && expertise != "" && !IsSpace(expertise[|expertise| - 1]) ==>
      Description("", role, expertise, interest) == Segment("Role: ", role, ". ") + "Expertise: " + expertise + "."
    ensures interest == "" && expertise == "" && role != "" && !IsSpace(role[|role| - 1]) ==>
      Description("", role, expertise, interest) == "Role: " + role + "."
  {
    SynthesizedStart(role, expertise, interest);
    TrimStartIdentity(Synthesized(role, expertise, interest));
    if interest != "" && !IsSpace(interest[|interest| - 1]) {
      EndsWithInterest(role, expertise, interest);
    } else if interest == "" && expertise != "" && !IsSpace(expertise[|expertise| - 1]) {
      EndsWithExpertise(role, expertise);
    } else if interest == "" && expertise == "" && role != "" && !IsSpace(role[|role| - 1]) {
      EndsWithRole(role);
    }
  }

  lemma EndsWithExpertise(role: string, expertise: string)
    requires expertise != "" && !IsSpace(expertise[|expertise| - 1])
    ensures TrimEnd(Synthesized(role, expertise, "")) == Segment("Role: ", role, ". ") + "Expertise: " + expertise + "."
  {
    var p := Segment("Role: ", role, ". ") + "Expertise: " + expertise;
    assert Synthesized(role, expertise, "") == p + ". ";
    EndsWithPeriod(p, p + ". ");
  }

  lemma EndsWithRole(role: string)
    requires role != "" && !IsSpace(role[|role| - 1])
    ensures TrimEnd(Synthesized(role, "", "")) == "Role: " + role + "."
  {
    var p := "Role: " + role;
    assert Synthesized(role, "", "") == p + ". ";
    EndsWithPeriod(p, p + ". ");
  }

  lemma EndsWithInterest(role: string, expertise: string, interest: string)
    requires interest != "" && !IsSpace(interest[|interest| - 1])
    ensures TrimEnd(Synthesized(role, expertise, interest)) ==
      Segment("Role: ", role, ". ") + Segment("Expertise: ", expertise, ". ") + "Interests: " + interest
  {
    var t := Synthesized(role, expertise, interest);
    assert t == Segment("Role: ", role, ". ") + Segment("Expertise: ", expertise, ". ") + "Interests: " + interest;
    assert t[|t| - 1] == interest[|interest| - 1];
    TrimEndIdentity(t);
  }

  /** A text ending in `. ` loses exactly its final space to `trimEnd`. */
  lemma EndsWithPeriod(p: string, t: string)
    requires t == p + ". "
    ensures TrimEnd(t) == p + "."
  {
    assert t[..|t| - 1] == p + ".";
    TrimEndIdentity(p + ".");
  }

  /** Trimming the synthesized text keeps its first segment, up to the period. */
  lemma DescriptionStart(role: string, expertise: string, interest: string)
    ensures role != "" ==> "Role: " + role + "." <= Description("", role, expertise, interest)
    ensures role == "" && expertise != "" ==>
      "Expertise: " + expertise + "." <= Description("", role, expertise, interest)
    ensures role == "" && expertise == "" && interest != "" ==>
      "Interests:" <= Description("", role, expertise, interest)
  {
    var tailE := Segment("Expertise: ", expertise, ". ");
    var tailI := Segment("Interests: ", interest, "");
    if role != "" {
      var p := "Role: " + role + ".";
      assert Segment("Role: ", role, ". ") + tailE + tailI == p + (" " + tailE + tailI);
      TrimKeepsPrefix(p, " " + tailE + tailI);
    } else if expertise != "" {
      var p := "Expertise: " + expertise + ".";
      assert Segment("Role: ", role, ". ") + tailE + tailI == p + (" " + tailI);
      TrimKeepsPrefix(p, " " + tailI);
    } else if interest != "" {
      var p := "Interests:";
      assert Segment("Role: ", role, ". ") + tailE + tailI == p + (" " + interest);
      TrimKeepsPrefix(p, " " + interest);
    }
  }

  /**
   * A non-empty note is used verbatim. Otherwise the description is empty when all three fields
   * are, is `Interests: I` when only an interest that does not end in white space is given, and
   * never starts or ends with white space.
   */
  lemma DescriptionSpec(note: string, role: string, expertise: string, interest: string)
    ensures note != "" ==> Description(note, role, expertise, interest) == note
    ensures note == "" && role == "" && expertise == "" && interest != "" && !IsSpace(interest[|interest| - 1]) ==>
      Description(note, role, expertise, interest) == "Interests: " + interest
    ensures note == "" && role == "" && expertise == "" && interest == "" ==>
      Description(note, role, expertise, interest) == ""
    ensures var d := Description(note, role, expertise, interest);
      note == "" && d != [] ==> !IsSpace(d[0]) && !IsSpace(d[|d| - 1])
  {
    if note == "" && role == "" && expertise == "" && interest != "" && !IsSpace(interest[|interest| - 1]) {
      assert Segment("Role: ", role, ". ") + Segment("Expertise: ", expertise, ". ") +
        Segment("Interests: ", interest, "") == "Interests: " + interest;
      TrimIdentity("Interests: " + interest);
    }
  }

  // ================================================================ members

  /** `entry.fields.Name` is truthy. */
  predicate HasName(e: Entry) {
    Field(e, "Name") != ""
  }

  /** `data.filter(entry => entry.fields.Name)`. */
  function Named(data: seq<Entry>): (r: seq<Entry>)
    ensures forall e :: e in r <==> e in data && HasName(e)
    ensures forall e :: multiset(r)[e] == if HasName(e) then multiset(data)[e] else 0
    ensures IsSubsequence(r, data)
  {
    if data == [] then []
    else
      assert data == [data[0]] + data[1..];
      if HasName(data[0]) then [data[0]] + Named(data[1..])
      else Named(data[1..])
  }

  /** Filtering a concatenation filters each part. */
  lemma {:induction false} NamedAppend(a: seq<Entry>, b: seq<Entry>)
    ensures Named(a + b) == Named(a) + Named(b)
  {
    if a != [] {
      assert (a + b)[0] == a[0] && (a + b)[1..] == a[1..] + b;
      NamedAppend(a[1..], b);
    } else {
      assert a + b == b;
    }
  }

  /** The positions of the entries that have a Name. */
  function NamedPositions(data: seq<Entry>): set<nat> {
    set i: nat | i < |data| && HasName(data[i])
  }

  lemma NamedPositionsSnoc(init: seq<Entry>, last: Entry)
    ensures |NamedPositions(init + [last])| == |NamedPositions(init)| + if HasName(last) then 1 else 0
  {
    var data := init + [last];
    forall i: nat | i < |init| ensures data[i] == init[i] { }
    var later: set<nat> := if HasName(last) then {|init|} else {};
    assert NamedPositions(data) == NamedPositions(init) + later;
    assert |init| !in NamedPositions(init);
  }

  lemma {:induction false} NamedSnoc(init: seq<Entry>, last: Entry)
    ensures |Named(init + [last])| == |Named(init)| + if HasName(last) then 1 else 0
  {
    NamedAppend(init, [last]);
    assert [last][1..] == [];
  }

  /** As many entries are kept as there are positions holding a named entry. */
  lemma {:induction false} NamedCount(data: seq<Entry>)
    ensures |Named(data)| == |NamedPositions(data)|
  {
    if data != [] {
      var init, last := data[..|data| - 1], data[|data| - 1];
      assert data == init + [last];
      NamedCount(init);
      NamedSnoc(init, last);
      NamedPositionsSnoc(init, last);
    }
  }

  /** `member-${index}`. */
  function MemberId(index: nat): string {
    "member-" + NatToString(index)
  }

  /** Distinct positions get distinct ids. */
  lemma MemberIdInjective(i: nat, j: nat)
    requires MemberId(i) == MemberId(j)
    ensures i == j
  {
    var pre := "member-";
    assert NatToString(i) == MemberId(i)[|pre|..];
    assert NatToString(j) == MemberId(j)[|pre|..];
    NatToStringInjective(i, j);
  }

  /** The body of the `map` callback, for the entry at `index` among the named entries. */
  function ToMember(e: Entry, index: nat): Member {
    var expertise := Field(e, "Expertise");
    var interest := Field(e, "Interest");
    var role := Field(e, "Role");
    var note := Field(e, "Note");
    var name := Field(e, "Name");
    Member(
      MemberId(index),
      if name != "" then name else "Anonymous Member",
      Description(note, role, expertise, interest),
      MemberType(role),
      Keywords(e),
      ProgrammingLanguage(expertise, interest),
      Platform(expertise, interest),
      e)
  }

  /** `transformToCommunityMembers`. */
  function TransformToCommunityMembers(data: seq<Entry>): seq<Member> {
    var named := Named(data);
    seq(|named|, i requires 0 <= i < |named| => ToMember(named[i], i))
  }

  /** The entries the members were projected from, in member order. */
  function Sources(members: seq<Member>): seq<Entry> {
    seq(|members|, i requires 0 <= i < |members| => members[i].originalData)
  }

  /**
   * One member per named entry, in input order: member `i` comes from the `i`-th named entry,
   * has id `member-i` and that entry's Name as title; entries without a Name are dropped.
   */
  lemma TransformSpec(data: seq<Entry>)
    ensures var ms := TransformToCommunityMembers(data);
      Sources(ms) == Named(data) && IsSubsequence(Sources(ms), data) &&
      |ms| == |set i: nat | i < |data| && HasName(data[i])| &&
      (forall e :: multiset(Sources(ms))[e] == if HasName(e) then multiset(data)[e] else 0) &&
      (forall e :: e in Sources(ms) <==> e in data && HasName(e)) &&
      forall i :: 0 <= i < |ms| ==>
        ms[i].id == MemberId(i) && ms[i].title == Field(Named(data)[i], "Name")
  {
    var ms := TransformToCommunityMembers(data);
    var named := Named(data);
    NamedCount(data);
    forall i | 0 <= i < |ms| ensures ms[i].title == Field(named[i], "Name") {
      assert named[i] in named;
    }
  }

  /** All ids of one projection are distinct. */
  lemma TransformIdsDistinct(data: seq<Entry>)
    ensures var ms := TransformToCommunityMembers(data);
      forall i, j :: 0 <= i < |ms| && 0 <= j < |ms| && ms[i].id == ms[j].id ==> i == j
  {
    var ms := TransformToCommunityMembers(data);
    forall i, j | 0 <= i < |ms| && 0 <= j < |ms| && ms[i].id == ms[j].id ensures i == j {
      MemberIdInjective(i, j);
    }
  }

  /** Every member carries the classification, tags and keyword guarantees of its entry. */
  lemma TransformMemberSpec(data: seq<Entry>, i: nat)
    requires i < |Named(data)|
    ensures var m := TransformToCommunityMembers(data)[i];
      var e := m.originalData;
      Distinct(m.keywords) && (forall l :: l in m.keywords ==> l != "" && l in RawKeywords(e)) &&
      m.memberType in {"Student", "Researcher", "Faculty", "Developer", "Community Member"} &&
      m.programmingLanguage in {"", "Python", "R", "MATLAB", "Git"} &&
      m.platform in {"NA", "Jupyter", "RStudio", "MATLAB"} && m.platform != ""
  {
    var e := Named(data)[i];
    KeywordsSpec(e);
    MemberTypeSpec(Field(e, "Role"));
    ProgrammingLanguageSpec(Field(e, "Expertise"), Field(e, "Interest"));
    PlatformSpec(Field(e, "Expertise"), Field(e, "Interest"));
  }

  // ================================================================ categories

  /** The labels of the mapping lists stored under `keys`. */
  function KeysLabels(e: Entry, keys: set<string>): set<string> {
    set k, l | k in keys && k in e.mappings && l in Labels(e.mappings[k]) :: l
  }

  /** `Object.values(entry.mappings)`, every list's truthy labels. */
  function EntryLabels(e: Entry): set<string> {
    KeysLabels(e, e.mappings.Keys)
  }

  /** Every truthy label of every entry, named or not. */
  function AllLabels(data: seq<Entry>): set<string> {
    if data == [] then {} else AllLabels(data[..|data| - 1]) + EntryLabels(data[|data| - 1])
  }

  lemma EntryLabelsIff(e: Entry, l: string)
    ensures l in EntryLabels(e) <==>
      l != "" && (exists k, j :: k in e.mappings && 0 <= j < |e.mappings[k]| &&
                   e.mappings[k][j].conceptLabel == Some(l))
  {
    forall k | k in e.mappings {
      LabelsIff(e.mappings[k], l);
    }
    if l != "" && exists k, j :: k in e.mappings && 0 <= j < |e.mappings[k]| && e.mappings[k][j].conceptLabel == Some(l) {
      var k, j :| k in e.mappings && 0 <= j < |e.mappings[k]| && e.mappings[k][j].conceptLabel == Some(l);
      LabelsIff(e.mappings[k], l);
      assert l in Labels(e.mappings[k]);
      assert l in KeysLabels(e, e.mappings.Keys);
    }
  }

  /** The label universe is exactly the non-empty labels of all mapping lists of all entries. */
  lemma {:induction false} AllLabelsIff(data: seq<Entry>, l: string)
    ensures l in AllLabels(data) <==>
      l != "" && (exists i, k, j :: 0 <= i < |data| && k in data[i].mappings &&
                   0 <= j < |data[i].mappings[k]| && data[i].mappings[k][j].conceptLabel == Some(l))
  {
    if data != [] {
      var init, e := data[..|data| - 1], data[|data| - 1];
      AllLabelsIff(init, l);
      EntryLabelsIff(e, l);
      if exists i, k, j :: (0 <= i < |init| && k in init[i].mappings &&
                            0 <= j < |init[i].mappings[k]| && init[i].mappings[k][j].conceptLabel == Some(l))
      {
        var i, k, j :| 0 <= i < |init| && k in init[i].mappings &&
          0 <= j < |init[i].mappings[k]| && init[i].mappings[k][j].conceptLabel == Some(l);
        assert data[i] == init[i];
      }
      if exists i, k, j :: (0 <= i < |data| && k in data[i].mappings &&
                            0 <= j < |data[i].mappings[k]| && data[i].mappings[k][j].conceptLabel == Some(l))
      {
        var i, k, j :| 0 <= i < |data| && k in data[i].mappings &&
          0 <= j < |data[i].mappings[k]| && data[i].mappings[k][j].conceptLabel == Some(l);
        if i < |init| {
          assert data[i] == init[i];
        }
      }
    }
  }

  /** Every keyword of every member is one of the categories offered for filtering. */
  lemma KeywordsAreCategories(data: seq<Entry>, i: nat)
    requires i < |Named(data)|
    ensures forall l :: l in TransformToCommunityMembers(data)[i].keywords ==> l in AllLabels(data)
  {
    var named := Named(data);
    var e := named[i];
    assert e in named;
    var n :| 0 <= n < |data| && data[n] == e;
    KeywordsSpec(e);
    forall l | l in TransformToCommunityMembers(data)[i].keywords ensures l in AllLabels(data) {
      AllLabelsIff(data, l);
    }
  }

  /** The nested `forEach` loops of `GET` adding into the `allCategories` set. */
  method CollectLabels(data: seq<Entry>) returns (all: set<string>)
    ensures all == AllLabels(data)
  {
    all := {};
    for i := 0 to |data|
      invariant all == AllLabels(data[..i])
    {
      var e := data[i];
      var rest := e.mappings.Keys;
      ghost var done: set<string> := {};
      while rest != {}
        invariant rest + done == e.mappings.Keys && rest !! done
        invariant all == AllLabels(data[..i]) + KeysLabels(e, done)
        decreases rest
      {
        var k :| k in rest;
        var list := e.mappings[k];
        for j := 0 to |list|
          invariant all == AllLabels(data[..i]) + KeysLabels(e, done) + (set l | l in Labels(list[..j]))
        {
          assert list[..j + 1][..j] == list[..j];
          match list[j].conceptLabel
          case Some(l) =>
            if l != "" {
              all := all + {l};
            }
          case None =>
        }
        assert list[..|list|] == list;
        assert KeysLabels(e, done + {k}) == KeysLabels(e, done) + (set l | l in Labels(list));
        rest := rest - {k};
        done := done + {k};
      }
      assert data[..i + 1][..i] == data[..i];
    }
    assert data[..|data|] == data;
  }

  /** `Array.from(allCategories).sort()`: an insertion sort into code-unit order. */
  method SortLabels(labels: set<string>) returns (sorted: seq<string>)
    ensures StrictlySorted(sorted)
    ensures forall l :: l in sorted <==> l in labels
    ensures |sorted| == |labels|
  {
    sorted := [];
    var rest := labels;
    while rest != {}
      invariant StrictlySorted(sorted)
      invariant forall l :: l in sorted <==> l in labels && l !in rest
      invariant rest <= labels
      invariant |sorted| + |rest| == |labels|
      decreases rest
    {
      var l :| l in rest;
      sorted := Insert(sorted, l);
      rest := rest - {l};
    }
  }

  /**
   * The `categories` of the response: strictly ascending, hence duplicate-free, and exactly the
   * label universe of all entries, including those dropped for lacking a Name.
   */
  method Categories(data: seq<Entry>) returns (categories: seq<string>)
    ensures StrictlySorted(categories) && Distinct(categories)
    ensures forall l :: l in categories <==> l in AllLabels(data)
  {
    var all := CollectLabels(data);
    categories := SortLabels(all);
    StrictlySortedDistinct(categories);
  }
}
