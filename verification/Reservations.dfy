/** Reservation links and their paths (src/xpk/core/reservation.py). */
module Reservations {
  import opened Text

  datatype Link =
    | Reservation(project: string, name: string, zone: string)
    | Block(project: string, name: string, zone: string, blockName: string)
    | SubBlock(project: string, name: string, zone: string, blockName: string, subBlockName: string)

  const PROJECTS := "projects"
  const RESERVATIONS := "reservations"
  const BLOCKS := "reservationBlocks"
  const SUB_BLOCKS := "reservationSubBlocks"

  /** _try_parse_reservation */
  function TryParse(path: string, clusterProject: string, zone: string): Option<Link> {
    var parts := Split(path, '/');
    if exists i | 0 <= i < |parts| :: parts[i] == "" then None
    else if parts[0] == PROJECTS then
      if |parts| < 4 || parts[2] != RESERVATIONS then None
      else FromParts(parts[3..], parts[1], zone)
    else FromParts(parts, clusterProject, zone)
  }

  function FromParts(parts: seq<string>, project: string, zone: string): Option<Link> {
    if |parts| == 1 then Some(Reservation(project, parts[0], zone))
    else if |parts| == 3 && parts[1] == BLOCKS then Some(Block(project, parts[0], zone, parts[2]))
    else if |parts| == 5 && parts[1] == BLOCKS && parts[3] == SUB_BLOCKS then
      Some(SubBlock(project, parts[0], zone, parts[2], parts[4]))
    else None
  }

  /** to_reservation_path */
  function ToPath(link: Link, clusterProject: string): string {
    var path := if link.project == clusterProject then link.name
                else PROJECTS + "/" + link.project + "/" + RESERVATIONS + "/" + link.name;
    var path := if link.Reservation? then path else path + "/" + BLOCKS + "/" + link.blockName;
    if link.SubBlock? then path + "/" + SUB_BLOCKS + "/" + link.subBlockName else path
  }

  /** A usable path component. */
  predicate Component(s: string) {
    s != "" && '/' !in s
  }

  /** Everything that is printed is a component; the project is printed only if it is not the cluster's. */
  predicate WellFormed(link: Link, clusterProject: string) {
    && Component(link.name)
    && (link.project == clusterProject || Component(link.project))
    && (link.Reservation? || Component(link.blockName))
    && (link.SubBlock? ==> Component(link.subBlockName))
  }

  /** The one name that collides with the syntax of paths. */
  predicate Ambiguous(link: Link, clusterProject: string) {
    link.project == clusterProject && link.name == PROJECTS
  }

  function NameParts(link: Link): seq<string> {
    match link
    case Reservation(_, name, _) => [name]
    case Block(_, name, _, b) => [name, BLOCKS, b]
    case SubBlock(_, name, _, b, s) => [name, BLOCKS, b, SUB_BLOCKS, s]
  }

  function PathParts(link: Link, clusterProject: string): seq<string> {
    if link.project == clusterProject then NameParts(link)
    else [PROJECTS, link.project, RESERVATIONS] + NameParts(link)
  }

  lemma JoinCons(a: string, rest: seq<string>)
    requires rest != []
    ensures Join([a] + rest, '/') == a + ("/" + Join(rest, '/'))
  {
    assert ([a] + rest)[1..] == rest;
  }

  lemma JoinTwo(a: string, b: string, rest: seq<string>)
    requires rest != []
    ensures Join([a, b] + rest, '/') == a + "/" + b + "/" + Join(rest, '/')
  {
    JoinCons(b, rest);
    JoinCons(a, [b] + rest);
    assert [a, b] + rest == [a] + ([b] + rest);
  }

  lemma BlockPath(link: Link)
    ensures Join(NameParts(link), '/') ==
            (var path := if link.Reservation? then link.name else link.name + "/" + BLOCKS + "/" + link.blockName;
             if link.SubBlock? then path + "/" + SUB_BLOCKS + "/" + link.subBlockName else path)
  {
    hide Join; hide BLOCKS; hide SUB_BLOCKS;
    match link {
      case Reservation(_, name, _) =>
        JoinOne(name);
      case Block(_, name, _, b) =>
        JoinOne(b);
        JoinTwo(name, BLOCKS, [b]);
        assert NameParts(link) == [name, BLOCKS] + [b];
      case SubBlock(_, name, _, b, s) =>
        JoinOne(s);
        JoinTwo(b, SUB_BLOCKS, [s]);
        JoinTwo(name, BLOCKS, [b, SUB_BLOCKS] + [s]);
        assert NameParts(link) == [name, BLOCKS] + ([b, SUB_BLOCKS] + [s]);
        Flatten(name, BLOCKS, b, SUB_BLOCKS, s);
    }
  }

  lemma JoinOne(a: string)
    ensures Join([a], '/') == a
  {
  }

  lemma Flatten(a: string, b: string, c: string, d: string, e: string)
    ensures a + "/" + b + "/" + (c + "/" + d + "/" + e) == a + "/" + b + "/" + c + "/" + d + "/" + e
  {
  }

  /** Printing with a prefix in front of the name is printing behind that prefix. */
  lemma Prefixed(p: string, link: Link)
    ensures var tail := if link.Reservation? then link.name else link.name + "/" + BLOCKS + "/" + link.blockName;
      var tail := if link.SubBlock? then tail + "/" + SUB_BLOCKS + "/" + link.subBlockName else tail;
      var path := p + link.name;
      var path := if link.Reservation? then path else path + "/" + BLOCKS + "/" + link.blockName;
      (if link.SubBlock? then path + "/" + SUB_BLOCKS + "/" + link.subBlockName else path) == p + tail
  {
    hide BLOCKS; hide SUB_BLOCKS;
    if !link.Reservation? {
      PrefixedStep(p, link.name, BLOCKS, link.blockName);
      if link.SubBlock? {
        PrefixedStep(p, link.name + "/" + BLOCKS + "/" + link.blockName, SUB_BLOCKS, link.subBlockName);
      }
    }
  }

  lemma PrefixedStep(p: string, a: string, b: string, c: string)
    ensures (p + a) + "/" + b + "/" + c == p + (a + "/" + b + "/" + c)
  {
  }

  lemma Regroup(a: string, b: string, c: string, tail: string)
    ensures a + "/" + b + "/" + c + "/" + tail == a + "/" + b + "/" + (c + ("/" + tail))
  {
  }

  lemma PathIsJoin(link: Link, clusterProject: string)
    ensures ToPath(link, clusterProject) == Join(PathParts(link, clusterProject), '/')
  {
    hide Join; hide PROJECTS; hide RESERVATIONS; hide BLOCKS; hide SUB_BLOCKS;
    var tail := NameParts(link);
    BlockPath(link);
    if link.project != clusterProject {
      var p := PROJECTS + "/" + link.project + "/" + RESERVATIONS + "/";
      Prefixed(p, link);
      JoinCons(RESERVATIONS, tail);
      JoinTwo(PROJECTS, link.project, [RESERVATIONS] + tail);
      assert PathParts(link, clusterProject) == [PROJECTS, link.project] + ([RESERVATIONS] + tail);
      Regroup(PROJECTS, link.project, RESERVATIONS, Join(tail, '/'));
    }
  }

  lemma NoSlashInKeywords()
    ensures Component(PROJECTS) && Component(RESERVATIONS) && Component(BLOCKS) && Component(SUB_BLOCKS)
    ensures PROJECTS != RESERVATIONS && PROJECTS != BLOCKS && BLOCKS != SUB_BLOCKS
  {
  }

  /** Printing a well-formed link and splitting the path gives the parts back. */
  lemma PathSplits(link: Link, clusterProject: string)
    requires WellFormed(link, clusterProject)
    ensures Split(ToPath(link, clusterProject), '/') == PathParts(link, clusterProject)
    ensures forall w | w in PathParts(link, clusterProject) :: w != ""
  {
    hide Split; hide Join; hide ToPath;
    NoSlashInKeywords();
    PathIsJoin(link, clusterProject);
    var parts := PathParts(link, clusterProject);
    assert forall w | w in NameParts(link) :: '/' !in w && w != "";
    assert forall w | w in parts :: '/' !in w && w != "";
    SplitOfJoin(parts, '/');
  }

  /** What any parsed link looks like. */
  lemma ParsedIsWellFormed(path: string, clusterProject: string, zone: string)
    requires TryParse(path, clusterProject, zone).Some?
    ensures WellFormed(TryParse(path, clusterProject, zone).value, clusterProject)
    ensures TryParse(path, clusterProject, zone).value.zone == zone
  {
    hide Split;
    var parts := Split(path, '/');
    assert forall i | 0 <= i < |parts| :: parts[i] in parts && Component(parts[i]);
  }

  /** Round trip: parsing the printed path returns the link, at all three levels, if and only if the
      components can be written in a path and the link is not the ambiguous one. */
  lemma ParseOfPath(link: Link, clusterProject: string)
    ensures TryParse(ToPath(link, clusterProject), clusterProject, link.zone) == Some(link)
       <==> WellFormed(link, clusterProject) && !Ambiguous(link, clusterProject)
  {
    hide ToPath; hide Split;
    if WellFormed(link, clusterProject) {
      PathSplits(link, clusterProject);
      var parts := PathParts(link, clusterProject);
      if link.project != clusterProject {
        assert parts[3..] == NameParts(link);
      } else if link.name == PROJECTS {
        assert parts[0] == PROJECTS && |parts| >= 4 ==> parts[3..] == ["reservationSubBlocks", parts[4]];
      }
    } else if TryParse(ToPath(link, clusterProject), clusterProject, link.zone) == Some(link) {
      ParsedIsWellFormed(ToPath(link, clusterProject), clusterProject, link.zone);
    }
  }

  /** Normalisation: printing a parsed link gives a path for the same link, unless it is the ambiguous one. */
  lemma ParseThenPrint(path: string, clusterProject: string, zone: string)
    requires TryParse(path, clusterProject, zone).Some?
    ensures var link := TryParse(path, clusterProject, zone).value;
      TryParse(ToPath(link, clusterProject), clusterProject, zone) == Some(link) <==> !Ambiguous(link, clusterProject)
  {
    hide ToPath; hide TryParse;
    ParsedIsWellFormed(path, clusterProject, zone);
    ParseOfPath(TryParse(path, clusterProject, zone).value, clusterProject);
  }

  /** The ambiguous link can be reached, by a path that spells out its project, but its own printed
      form is rejected. */
  lemma AmbiguousLink(project: string, otherProject: string, zone: string)
    requires Component(project) && project != otherProject
    ensures var link := Reservation(project, PROJECTS, zone);
      && TryParse(ToPath(link, otherProject), project, zone) == Some(link)
      && TryParse(ToPath(link, project), project, zone) == None
  {
    hide ToPath; hide Split;
    var link := Reservation(project, PROJECTS, zone);
    NoSlashInKeywords();
    PathSplits(link, otherProject);
    PathSplits(link, project);
    assert PathParts(link, otherProject)[3..] == NameParts(link);
  }

  /** The two spellings of a link: by its name for the cluster's own project, where no reservation is called
      projects, and in full for any project. */
  ghost predicate Spells(path: string, link: Link, clusterProject: string) {
    && Component(link.name) && (link.Reservation? || Component(link.blockName))
    && (link.SubBlock? ==> Component(link.subBlockName))
    && (|| (link.project == clusterProject && link.name != PROJECTS && path == Join(NameParts(link), '/'))
        || (Component(link.project) && path == Join([PROJECTS, link.project, RESERVATIONS] + NameParts(link), '/')))
  }

  lemma NamePartsFromParts(parts: seq<string>, project: string, zone: string)
    ensures FromParts(parts, project, zone).Some? ==>
      var link := FromParts(parts, project, zone).value;
      NameParts(link) == parts && link.project == project && link.zone == zone
    ensures forall link: Link | NameParts(link) == parts && link.project == project && link.zone == zone ::
      FromParts(parts, project, zone) == Some(link)
  {
  }

  /** Exactly the spellings of a link are read as that link; every other path is rejected: one with an empty
      part, with two, four or more than five parts behind the project, or with another keyword in its place. */
  lemma ParsesExactly(path: string, clusterProject: string, link: Link)
    ensures TryParse(path, clusterProject, link.zone) == Some(link) <==> Spells(path, link, clusterProject)
  {
    hide TryParse; hide Spells;
    if Spells(path, link, clusterProject) {
      SpelledParses(path, clusterProject, link);
    }
    if TryParse(path, clusterProject, link.zone) == Some(link) {
      ParsedIsSpelled(path, clusterProject, link);
    }
  }

  lemma SpelledParses(path: string, clusterProject: string, link: Link)
    requires Spells(path, link, clusterProject)
    ensures TryParse(path, clusterProject, link.zone) == Some(link)
  {
    hide Split; hide Join; hide FromParts; hide NameParts;
    var tail := NameParts(link);
    NoSlashInKeywords();
    NamePartsAreComponents(link);
    if link.project == clusterProject && link.name != PROJECTS && path == Join(tail, '/') {
      SplitOfJoin(tail, '/');
      NamePartsFromParts(tail, clusterProject, link.zone);
      assert forall i | 0 <= i < |tail| :: tail[i] in tail && Component(tail[i]);
    } else {
      var full := [PROJECTS, link.project, RESERVATIONS] + tail;
      assert forall w | w in full :: Component(w);
      SplitOfJoin(full, '/');
      assert full[3..] == tail && full[1] == link.project;
      NamePartsFromParts(tail, link.project, link.zone);
      assert forall i | 0 <= i < |full| :: full[i] in full && Component(full[i]);
    }
  }

  lemma ParsedIsSpelled(path: string, clusterProject: string, link: Link)
    requires TryParse(path, clusterProject, link.zone) == Some(link)
    ensures Spells(path, link, clusterProject)
  {
    hide Split; hide Join; hide FromParts; hide NameParts;
    var parts := Split(path, '/');
    JoinOfSplit(path, '/');
    NamePartsAreComponents(link);
    assert forall i | 0 <= i < |parts| :: parts[i] in parts && Component(parts[i]);
    if parts[0] == PROJECTS {
      NamePartsFromParts(parts[3..], parts[1], link.zone);
      assert parts == [PROJECTS, parts[1], RESERVATIONS] + parts[3..];
      assert forall w | w in parts[3..] :: w in parts;
      PartsOfName(link, parts[3..]);
    } else {
      NamePartsFromParts(parts, clusterProject, link.zone);
      PartsOfName(link, parts);
    }
  }

  lemma NamePartsAreComponents(link: Link)
    ensures |NameParts(link)| >= 1 && NameParts(link)[0] == link.name
    ensures Component(link.name) && (link.Reservation? || Component(link.blockName))
            && (link.SubBlock? ==> Component(link.subBlockName))
       ==> forall w | w in NameParts(link) :: Component(w)
  {
    NoSlashInKeywords();
  }

  lemma PartsOfName(link: Link, parts: seq<string>)
    requires NameParts(link) == parts && forall w | w in parts :: Component(w)
    ensures Component(link.name) && (link.Reservation? || Component(link.blockName))
    ensures link.SubBlock? ==> Component(link.subBlockName)
  {
    assert link.name == parts[0] && parts[0] in parts;
    if !link.Reservation? { assert link.blockName == parts[2] && parts[2] in parts; }
    if link.SubBlock? { assert link.subBlockName == parts[4] && parts[4] in parts; }
  }
}
