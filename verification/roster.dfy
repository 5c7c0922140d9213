/**
 Roster normalisation of the add-group and add-subject forms (app.py lines
 95-100 and 123-128, the same code twice): the group id is upper-cased, and
 the member textarea becomes one entry per line, each entry being the line's
 words capitalized and joined by single spaces.
 */
module Roster {
  import opened PyChar
  import opened PyStr

  /** `data['group_id'].upper()`. */
  function NormaliseGroupId(raw: string): (id: string)
    ensures |id| == |raw|
    ensures forall i :: 0 <= i < |raw| ==> id[i] == Upper(raw[i])
    ensures IsUpperCased(id)
  {
    UpperStrShape(raw);
    UpperStr(raw)
  }

  /** `list(map(lambda z: z.capitalize(), ws))`. */
  function CapitalizeAll(ws: seq<string>): (cs: seq<string>)
    ensures |cs| == |ws|
  {
    seq(|ws|, i requires 0 <= i < |ws| => Capitalize(ws[i]))
  }

  /** Capitalizing a list of words keeps them words, gives each the capitalized
      shape, and is idempotent. */
  lemma CapitalizeAllShape(ws: seq<string>)
    requires forall i :: 0 <= i < |ws| ==> IsWord(ws[i])
    ensures forall i :: 0 <= i < |ws| ==> IsWord(CapitalizeAll(ws)[i])
    ensures forall i :: 0 <= i < |ws| ==> IsCapitalized(CapitalizeAll(ws)[i])
    ensures CapitalizeAll(CapitalizeAll(ws)) == CapitalizeAll(ws)
  {
    forall i | 0 <= i < |ws|
      ensures IsWord(CapitalizeAll(ws)[i]) && IsCapitalized(CapitalizeAll(ws)[i])
      ensures Capitalize(Capitalize(ws[i])) == Capitalize(ws[i])
    {
      CapitalizeShape(ws[i]);
    }
  }

  /** One line of the member textarea after the `rstrip()` of line 98 and the
      split / capitalize / join of line 100. Its words are the line's words,
      capitalized, in order; it is clean (no edge whitespace, single spaces). */
  function NormaliseLine(line: string): (entry: string)
    ensures Clean(entry)
    ensures Words(entry) == CapitalizeAll(Words(line))
    ensures forall i :: 0 <= i < |Words(entry)| ==> IsCapitalized(Words(entry)[i])
  {
    var ws := Words(RStrip(line));
    WordsOfRStrip(line);
    CapitalizeAllShape(ws);
    WordsOfJoin(CapitalizeAll(ws));
    JoinWordsClean(CapitalizeAll(ws));
    Join(" ", CapitalizeAll(ws))
  }

  /** The member list passed to `db.add_group`: the textarea split on `'\n'`,
      each line normalised. */
  function NormaliseMembers(text: string): (members: seq<string>)
    ensures |members| == Count(text, '\n') + 1
    ensures forall i :: 0 <= i < |members| ==> Clean(members[i])
  {
    var lines := Split(text, '\n');
    seq(|lines|, i requires 0 <= i < |lines| => NormaliseLine(lines[i]))
  }

  /** One entry per `'\n'`-separated line, in order: the lines are exactly the
      pieces that join back to the text, and entry i holds the capitalized
      words of line i. */
  lemma MembersOnePerLine(text: string)
    ensures var lines := Split(text, '\n');
      && Join("\n", lines) == text
      && |NormaliseMembers(text)| == |lines|
      && forall i :: 0 <= i < |lines| ==>
           Words(NormaliseMembers(text)[i]) == CapitalizeAll(Words(lines[i]))
  {
    SplitJoin(text, '\n');
  }

  /** A blank line is kept, as an empty entry, and only a blank line gives one. */
  lemma BlankLinesKept(text: string, i: nat)
    requires i < |Split(text, '\n')|
    ensures NormaliseMembers(text)[i] == "" <==> IsBlank(Split(text, '\n')[i])
  {
    var line := Split(text, '\n')[i];
    var ws := Words(RStrip(line));
    WordsOfRStrip(line);
    WordsEmptyIffBlank(line);
    CapitalizeAllShape(ws);
    JoinWordsClean(CapitalizeAll(ws));
  }

  /** A clean string has no separator line break in it. */
  lemma CleanHasNoNewline(e: string)
    requires Clean(e)
    ensures '\n' !in e
  {
    if '\n' in e {
      var k :| 0 <= k < |e| && e[k] == '\n';
      assert IsSpace(e[k]);
    }
  }

  /** Normalising an already normalised entry changes nothing. */
  lemma NormaliseLineIdempotent(line: string)
    ensures NormaliseLine(NormaliseLine(line)) == NormaliseLine(line)
  {
    var e := NormaliseLine(line);
    var c := CapitalizeAll(Words(line));
    assert RStrip(e) == e;
    WordsOfRStrip(line);
    CapitalizeAllShape(Words(line));
    assert CapitalizeAll(Words(RStrip(e))) == c;
  }

  /** Submitting the normalised roster again, one entry per line, yields the
      same roster. */
  lemma NormaliseMembersIdempotent(text: string)
    ensures NormaliseMembers(Join("\n", NormaliseMembers(text))) == NormaliseMembers(text)
  {
    var members := NormaliseMembers(text);
    var lines := Split(text, '\n');
    forall i | 0 <= i < |members|
      ensures '\n' !in members[i]
      ensures NormaliseLine(members[i]) == members[i]
    {
      CleanHasNoNewline(members[i]);
      NormaliseLineIdempotent(lines[i]);
    }
    JoinSplit(members, '\n');
  }

  /** Upper-casing the group id is idempotent, and fixes exactly the ids that
      are already upper case. */
  lemma GroupIdIdempotent(raw: string)
    ensures NormaliseGroupId(NormaliseGroupId(raw)) == NormaliseGroupId(raw)
    ensures NormaliseGroupId(raw) == raw <==> IsUpperCased(raw)
  {
    UpperStrShape(raw);
  }

  /** What the POST branch of add_group / add_subject does with the form. */
  datatype RosterOutcome =
    | AddGroup(groupId: string, members: seq<string>, author: int)
      // `db.add_group(group_id, members, user['id'])`, then redirect to the index
    | Broken(missingField: string)
      // the missing-key error caught by `except Exception`: the 'everything broke'
      // page; `missingField` records which key raised, the page does not show it

  /** The POST branch of add_group (app.py 93-107) and of add_subject
      (app.py 121-135), for the user with id `author`. */
  function SubmitRoster(form: map<string, string>, author: int): (o: RosterOutcome)
    ensures o.Broken? <==> "group_id" !in form || "members" !in form
    ensures o.Broken? ==> o.missingField == (if "group_id" !in form then "group_id" else "members")
    ensures o.AddGroup? ==>
      && o.author == author
      && o.groupId == NormaliseGroupId(form["group_id"])
      && o.members == NormaliseMembers(form["members"])
      && |o.groupId| == |form["group_id"]| && IsUpperCased(o.groupId)
      && |o.members| == Count(form["members"], '\n') + 1
      && (forall i :: 0 <= i < |o.members| ==> Clean(o.members[i]))
  {
    if "group_id" !in form then Broken("group_id")
    else
      var groupId := NormaliseGroupId(form["group_id"]);
      if "members" !in form then Broken("members")
      else AddGroup(groupId, NormaliseMembers(form["members"]), author)
  }
}
