/**
 * OsmImportService.importFromOsm: fetch one OpenStreetMap node as XML, take
 * the first `node` element's coordinates and `name` tag, and save a new
 * point of sale.
 *
 * The HTTP fetch, the XML parser, the BigDecimal parser and the repository
 * are collaborators whose code is not modelled: each becomes a parameter
 * (a value for the fetch, a function for the others). Every call the import
 * makes into the parser, the decimal parser or the repository is written to
 * a call log, so that "this step never runs" can be stated and proved.
 */
module OsmImport {
  import opened Wrappers
  import opened Dom
  import opened JavaString

  /** A java.math.BigDecimal: unscaled * 10^(-scale), kept exactly as parsed. */
  datatype Decimal = Decimal(unscaled: int, scale: int)

  /** The point-of-sale entity; `id` is assigned by the repository on save. */
  datatype PointOfSale = PointOfSale(id: Option<nat>, name: string, latitude: Decimal, longitude: Decimal)

  /**
   * A Java exception thrown by a collaborator. `illegalArgument` records
   * whether it is an IllegalArgumentException or one of its subclasses.
   */
  datatype JavaException = JavaException(illegalArgument: bool, message: string)

  /** What RestTemplate.getForObject produced: a body, null, or an exception. */
  datatype Fetched = Body(text: string) | NullBody | FetchThrew(ex: JavaException)

  /** What DocumentBuilder.parse produced: the document element, or a parse failure. */
  datatype Parsed = WellFormed(root: Element) | Malformed(message: string)

  /** What PointOfSaleRepository.save produced. */
  datatype Stored = Stored(entity: PointOfSale) | SaveThrew(ex: JavaException)

  /** Why the try block of importFromOsm stopped. */
  datatype Cause =
    | NoResponse                         // null or empty body
    | NoNode                             // no `node` element below the document element
    | NoCoordinates                      // `lat` or `lon` absent or empty
    | InvalidNumber(text: string)        // NumberFormatException from new BigDecimal(text)
    | NoName                             // no `name` tag, or a blank one
    | MalformedXml(message: string)      // SAXException and other parser failures
    | FetchFailed(ex: JavaException)     // thrown by the HTTP client
    | SaveFailed(ex: JavaException)      // thrown by the repository

  /** The causes raised as IllegalArgumentException, or as a subclass of it. */
  predicate IsIllegalArgument(c: Cause)
  {
    match c
    case MalformedXml(_) => false
    case FetchFailed(ex) => ex.illegalArgument
    case SaveFailed(ex) => ex.illegalArgument
    case _ => true
  }

  /** The four checks importFromOsm itself makes, each raising IllegalArgumentException. */
  predicate IsValidation(c: Cause)
  {
    c == NoResponse || c == NoNode || c == NoCoordinates || c == NoName
  }

  /**
   * The exception importFromOsm lets escape: the original `cause` when
   * `wrapped` is false, otherwise a RuntimeException whose message extends
   * the original's and whose cause is the original.
   */
  datatype ImportError = ImportError(cause: Cause, wrapped: bool)

  datatype Result = Saved(entity: PointOfSale) | Failed(error: ImportError)

  /** A call into a collaborator. */
  datatype Call = ParseXml(text: string) | ParseDecimal(text: string) | Save(entity: PointOfSale)

  /** How the try block ended: a returned entity or a thrown exception. */
  datatype Outcome = Returned(entity: PointOfSale) | Threw(cause: Cause)

  datatype Attempt = Attempt(outcome: Outcome, calls: seq<Call>)

  datatype Run = Run(result: Result, calls: seq<Call>)

  /** The entities handed to the repository, in call order. */
  function SavesIn(calls: seq<Call>): (r: seq<PointOfSale>)
    ensures forall pos :: pos in r <==> Save(pos) in calls
  {
    if calls == [] then []
    else (if calls[0].Save? then [calls[0].entity] else []) + SavesIn(calls[1..])
  }

  /**
   * The `node` the import reads: the head of getElementsByTagName("node")
   * on the document element. What it selects is called "node" and lies
   * strictly inside the document element, so never is the element itself.
   */
  function FirstNode(root: Element): (r: Option<Element>)
    ensures r.Some? ==> r.value.name == "node" && r.value in Descendants(root) && r.value < root
  {
    var nodes := ElementsByTagName(root, "node");
    if |nodes| == 0 then None
    else
      assert nodes[0] in nodes;
      NamedMembers(Descendants(root), "node");
      DescendantsAreInside(root, nodes[0]);
      Some(nodes[0])
  }

  /**
   * The selected node is the earliest element called "node" among the proper
   * descendants of the document element, and there is none exactly when no
   * such descendant exists.
   */
  lemma FirstNodeIsEarliest(root: Element)
    ensures FirstNode(root).None? <==> forall x :: x in Descendants(root) ==> x.name != "node"
    ensures FirstNode(root).Some? ==>
              exists j :: 0 <= j < |Descendants(root)| && Descendants(root)[j] == FirstNode(root).value &&
                          FirstNode(root).value.name == "node" &&
                          forall k :: 0 <= k < j ==> Descendants(root)[k].name != "node"
  {
    if FirstNode(root).Some? {
      NamedHeadIsEarliest(Descendants(root), "node");
    } else {
      NamedMembers(Descendants(root), "node");
    }
  }

  /**
   * The `v` attribute of the first element of `tags` whose `k` attribute is
   * "name"; None when there is no such element. Later ones are never read.
   */
  function NameTag(tags: seq<Element>): Option<string>
  {
    if tags == [] then None
    else if GetAttribute(tags[0], "k") == "name" then Some(GetAttribute(tags[0], "v"))
    else NameTag(tags[1..])
  }

  /**
   * The scan finds nothing exactly when no tag has `k` = "name", and
   * otherwise returns the `v` of the first tag that has.
   */
  lemma {:induction false} NameTagIsFirstMatch(tags: seq<Element>)
    ensures NameTag(tags).None? <==> forall i :: 0 <= i < |tags| ==> GetAttribute(tags[i], "k") != "name"
    ensures NameTag(tags).Some? ==>
              exists i :: 0 <= i < |tags| && GetAttribute(tags[i], "k") == "name" &&
                          NameTag(tags).value == GetAttribute(tags[i], "v") &&
                          forall j :: 0 <= j < i ==> GetAttribute(tags[j], "k") != "name"
    decreases tags
  {
    if tags != [] && GetAttribute(tags[0], "k") != "name" {
      var r := NameTag(tags[1..]);
      NameTagIsFirstMatch(tags[1..]);
      if r.Some? {
        var i :| 0 <= i < |tags[1..]| && GetAttribute(tags[1..][i], "k") == "name" &&
                 r.value == GetAttribute(tags[1..][i], "v") &&
                 forall j :: 0 <= j < i ==> GetAttribute(tags[1..][j], "k") != "name";
        assert tags[i + 1] == tags[1..][i];
        forall j | 0 <= j < i + 1 ensures GetAttribute(tags[j], "k") != "name" {
          if j > 0 { assert tags[j] == tags[1..][j - 1]; }
        }
      } else {
        forall i | 0 <= i < |tags| ensures GetAttribute(tags[i], "k") != "name" {
          if i > 0 { assert tags[i] == tags[1..][i - 1]; }
        }
      }
    }
  }

  /** The tag scan as importFromOsm writes it: a counting loop that breaks at the first match. */
  method ScanName(tags: seq<Element>) returns (name: Option<string>)
    ensures name == NameTag(tags)
    ensures name.Some? ==> exists i :: 0 <= i < |tags| && GetAttribute(tags[i], "k") == "name" &&
                                       name.value == GetAttribute(tags[i], "v")
  {
    name := None;
    var i := 0;
    while i < |tags|
      invariant 0 <= i <= |tags|
      invariant NameTag(tags) == NameTag(tags[i..])
    {
      assert tags[i..][1..] == tags[i + 1..];
      var key := GetAttribute(tags[i], "k");
      if key == "name" {
        name := Some(GetAttribute(tags[i], "v"));
        break;
      }
      i := i + 1;
    }
  }

  /** The values OsmImportService.java lines 64-92 extract from the document, or why extraction stopped. */
  datatype Extracted = Fields(name: string, latitude: Decimal, longitude: Decimal) | Rejected(cause: Cause)

  datatype Extraction = Extraction(value: Extracted, calls: seq<Call>)

  /**
   * OsmImportService.java lines 67-92: check the node's coordinates, parse them, and find a
   * non-blank name below the node. FromNodeMatchesReference states what it
   * yields.
   */
  function FromNode(node: Element, decimal: string -> Option<Decimal>): Extraction
  {
    var latText := GetAttribute(node, "lat");
    var lonText := GetAttribute(node, "lon");
    if latText == "" || lonText == "" then Extraction(Rejected(NoCoordinates), [])
    else
      match decimal(latText)
      case None => Extraction(Rejected(InvalidNumber(latText)), [ParseDecimal(latText)])
      case Some(lat) =>
        var parsed := [ParseDecimal(latText), ParseDecimal(lonText)];
        match decimal(lonText)
        case None => Extraction(Rejected(InvalidNumber(lonText)), parsed)
        case Some(lon) =>
          match NameTag(ElementsByTagName(node, "tag"))
          case None => Extraction(Rejected(NoName), parsed)
          case Some(name) =>
            if IsBlank(name) then Extraction(Rejected(NoName), parsed)
            else Extraction(Fields(name, lat, lon), parsed)
  }

  /**
   * OsmImportService.java lines 57-92: select the first `node` below the document element and
   * extract from it. Extraction parses decimals and nothing else, and stops
   * only for the causes the checks on these lines raise.
   */
  function Extract(root: Element, decimal: string -> Option<Decimal>): (r: Extraction)
    ensures forall c :: c in r.calls ==> c.ParseDecimal?
    ensures r.value.Rejected? ==> r.value.cause in {NoNode, NoCoordinates, NoName} || r.value.cause.InvalidNumber?
    ensures r.value.Rejected? && r.value.cause in {NoNode, NoCoordinates} ==> r.calls == []
  {
    match FirstNode(root)
    case None => Extraction(Rejected(NoNode), [])
    case Some(node) => FromNode(node, decimal)
  }

  /**
   * The whole try block (OsmImportService.java lines 43-102): response check, XML parse, extraction,
   * save. The parser is called first if at all, the repository last if at
   * all, and a returned entity is what the repository answered.
   */
  function TryImport(fetched: Fetched, parse: string -> Parsed, decimal: string -> Option<Decimal>,
                     save: PointOfSale -> Stored): (r: Attempt)
    ensures r.calls != [] ==> fetched.Body? && r.calls[0] == ParseXml(fetched.text)
    ensures forall i :: 0 <= i < |r.calls| - 1 ==> !r.calls[i].Save?
    ensures r.outcome.Returned? ==>
              r.calls != [] && r.calls[|r.calls| - 1].Save? && save(r.calls[|r.calls| - 1].entity) == Stored(r.outcome.entity)
  {
    match fetched
    case FetchThrew(ex) => Attempt(Threw(FetchFailed(ex)), [])
    case NullBody => Attempt(Threw(NoResponse), [])
    case Body(text) =>
      if text == "" then Attempt(Threw(NoResponse), [])
      else
        match parse(text)
        case Malformed(message) => Attempt(Threw(MalformedXml(message)), [ParseXml(text)])
        case WellFormed(root) =>
          var rest := ExtractAndSave(root, decimal, save);
          assert ([ParseXml(text)] + rest.calls)[1..] == rest.calls;
          Attempt(rest.outcome, [ParseXml(text)] + rest.calls)
  }

  /**
   * OsmImportService.java lines 57-101, after the parse: extraction, then the save of the new
   * entity. Only decimals are parsed before the repository is called, and a
   * returned entity is what the repository answered.
   */
  function ExtractAndSave(root: Element, decimal: string -> Option<Decimal>, save: PointOfSale -> Stored): (r: Attempt)
    ensures forall i :: 0 <= i < |r.calls| - 1 ==> r.calls[i].ParseDecimal?
    ensures r.outcome.Returned? ==>
              r.calls != [] && r.calls[|r.calls| - 1].Save? && save(r.calls[|r.calls| - 1].entity) == Stored(r.outcome.entity)
  {
    var extraction := Extract(root, decimal);
    var calls := extraction.calls;
    assert forall i :: 0 <= i < |calls| ==> calls[i].ParseDecimal? by {
      assert forall i :: 0 <= i < |calls| ==> calls[i] in calls;
    }
    match extraction.value
    case Rejected(cause) => Attempt(Threw(cause), calls)
    case Fields(name, lat, lon) =>
      var pos := PointOfSale(None, name, lat, lon);
      match save(pos)
      case Stored(saved) => Attempt(Returned(saved), calls + [Save(pos)])
      case SaveThrew(ex) => Attempt(Threw(SaveFailed(ex)), calls + [Save(pos)])
  }

  /** The catch clauses (OsmImportService.java lines 103-107): rethrow IllegalArgumentException, wrap everything else. */
  function Catch(outcome: Outcome): (r: Result)
    ensures r.Saved? <==> outcome.Returned?
    ensures r.Saved? ==> r.entity == outcome.entity
    ensures r.Failed? ==> r.error.cause == outcome.cause && (r.error.wrapped <==> !IsIllegalArgument(outcome.cause))
  {
    match outcome
    case Returned(entity) => Saved(entity)
    case Threw(cause) => Failed(ImportError(cause, !IsIllegalArgument(cause)))
  }

  /**
   * Neither catch clause loses information: the escaping exception is the
   * original or carries it as its cause, so distinct outcomes of the try
   * block never end in the same result.
   */
  lemma CatchKeepsOutcome(a: Outcome, b: Outcome)
    requires Catch(a) == Catch(b)
    ensures a == b
  {
  }

  /**
   * importFromOsm, given what its collaborators do. Its own validation
   * failures and a non-numeric coordinate escape unwrapped; a parser failure
   * is always wrapped; an exception from the HTTP client or the repository is
   * wrapped unless it is an IllegalArgumentException.
   */
  function Import(fetched: Fetched, parse: string -> Parsed, decimal: string -> Option<Decimal>,
                  save: PointOfSale -> Stored): (run: Run)
    ensures run.result.Failed? && IsValidation(run.result.error.cause) ==> !run.result.error.wrapped
    ensures run.result.Failed? && run.result.error.cause.InvalidNumber? ==> !run.result.error.wrapped
    ensures run.result.Failed? && run.result.error.cause.MalformedXml? ==> run.result.error.wrapped
    ensures run.result.Failed? && (run.result.error.cause.FetchFailed? || run.result.error.cause.SaveFailed?) ==>
              run.result.error.wrapped == !run.result.error.cause.ex.illegalArgument
    ensures run.result.Failed? && run.result.error.cause.FetchFailed? ==>
              fetched == FetchThrew(run.result.error.cause.ex) && run.calls == []
    ensures fetched.FetchThrew? ==>
              run == Run(Failed(ImportError(FetchFailed(fetched.ex), !fetched.ex.illegalArgument)), [])
  {
    var attempt := TryImport(fetched, parse, decimal, save);
    Run(Catch(attempt.outcome), attempt.calls)
  }

  // ---------------------------------------------------------------------
  // A reference statement of when the import reaches the repository.
  // ---------------------------------------------------------------------

  /** `node` is the first element called "node" among the proper descendants of `root`. */
  ghost predicate IsFirstNode(root: Element, node: Element)
  {
    exists j :: 0 <= j < |Descendants(root)| && Descendants(root)[j] == node && node.name == "node" &&
                forall k :: 0 <= k < j ==> Descendants(root)[k].name != "node"
  }

  /** `name` is the `v` of the first `tag` element below `node` whose `k` is "name". */
  ghost predicate IsNameOf(node: Element, name: string)
  {
    var tags := ElementsByTagName(node, "tag");
    exists i :: 0 <= i < |tags| && GetAttribute(tags[i], "k") == "name" && GetAttribute(tags[i], "v") == name &&
                forall j :: 0 <= j < i ==> GetAttribute(tags[j], "k") != "name"
  }

  /**
   * The checks on OsmImportService.java lines 67-92 pass for `node` and yield these values: its
   * coordinates are non-empty and parse as `lat` and `lon`, and its first
   * name tag holds `name`, which has a character String.trim would keep.
   */
  ghost predicate NodeYields(node: Element, decimal: string -> Option<Decimal>,
                             name: string, lat: Decimal, lon: Decimal)
  {
    && GetAttribute(node, "lat") != "" && GetAttribute(node, "lon") != ""
    && decimal(GetAttribute(node, "lat")) == Some(lat)
    && decimal(GetAttribute(node, "lon")) == Some(lon)
    && IsNameOf(node, name)
    && exists i :: 0 <= i < |name| && !Trimmable(name[i])
  }

  /** Every check on OsmImportService.java lines 60-92 passes for the document element `root` and yields these values. */
  ghost predicate Extractable(root: Element, decimal: string -> Option<Decimal>,
                              name: string, lat: Decimal, lon: Decimal)
  {
    exists node :: IsFirstNode(root, node) && NodeYields(node, decimal, name, lat, lon)
  }

  /** Every check of importFromOsm passes and `pos` is the entity it builds. */
  ghost predicate Importable(fetched: Fetched, parse: string -> Parsed, decimal: string -> Option<Decimal>,
                             pos: PointOfSale)
  {
    && fetched.Body?
    && fetched.text != ""
    && parse(fetched.text).WellFormed?
    && pos.id == None
    && Extractable(parse(fetched.text).root, decimal, pos.name, pos.latitude, pos.longitude)
  }

  lemma FirstNodeIsUnique(root: Element, node: Element)
    requires IsFirstNode(root, node)
    ensures FirstNode(root) == Some(node)
  {
    FirstNodeIsEarliest(root);
    var d := Descendants(root);
    var j :| 0 <= j < |d| && d[j] == node && node.name == "node" && forall k :: 0 <= k < j ==> d[k].name != "node";
    var r := FirstNode(root).value;
    var j' :| 0 <= j' < |d| && d[j'] == r && r.name == "node" && forall k :: 0 <= k < j' ==> d[k].name != "node";
    assert j == j';
  }

  lemma NameTagIsUnique(node: Element, name: string)
    requires IsNameOf(node, name)
    ensures NameTag(ElementsByTagName(node, "tag")) == Some(name)
  {
    var tags := ElementsByTagName(node, "tag");
    NameTagIsFirstMatch(tags);
    var i :| 0 <= i < |tags| && GetAttribute(tags[i], "k") == "name" && GetAttribute(tags[i], "v") == name &&
             forall j :: 0 <= j < i ==> GetAttribute(tags[j], "k") != "name";
    var r := NameTag(tags);
    var i' :| 0 <= i' < |tags| && GetAttribute(tags[i'], "k") == "name" && r.value == GetAttribute(tags[i'], "v") &&
              forall j :: 0 <= j < i' ==> GetAttribute(tags[j], "k") != "name";
    assert i == i';
  }

  lemma FromNodeMatchesReference(node: Element, decimal: string -> Option<Decimal>,
                                 name: string, lat: Decimal, lon: Decimal)
    ensures FromNode(node, decimal).value == Fields(name, lat, lon) <==> NodeYields(node, decimal, name, lat, lon)
  {
    if NodeYields(node, decimal, name, lat, lon) {
      NameTagIsUnique(node, name);
    }
    if FromNode(node, decimal).value == Fields(name, lat, lon) {
      NameTagIsFirstMatch(ElementsByTagName(node, "tag"));
      assert NameTag(ElementsByTagName(node, "tag")) == Some(name);
      assert IsNameOf(node, name);
    }
  }

  /** Extraction yields exactly the values the reference statement describes. */
  lemma ExtractMatchesReference(root: Element, decimal: string -> Option<Decimal>,
                                name: string, lat: Decimal, lon: Decimal)
    ensures Extract(root, decimal).value == Fields(name, lat, lon) <==> Extractable(root, decimal, name, lat, lon)
  {
    if Extractable(root, decimal, name, lat, lon) {
      var node :| IsFirstNode(root, node) && NodeYields(node, decimal, name, lat, lon);
      FirstNodeIsUnique(root, node);
      FromNodeMatchesReference(node, decimal, name, lat, lon);
    }
    if Extract(root, decimal).value == Fields(name, lat, lon) {
      FirstNodeIsEarliest(root);
      var node := FirstNode(root).value;
      assert IsFirstNode(root, node);
      FromNodeMatchesReference(node, decimal, name, lat, lon);
    }
  }

  lemma {:induction false} NoSaveCalls(calls: seq<Call>)
    requires forall c :: c in calls ==> !c.Save?
    ensures SavesIn(calls) == []
    decreases calls
  {
    if calls != [] {
      assert calls[0] in calls;
      assert forall c :: c in calls[1..] ==> c in calls;
      NoSaveCalls(calls[1..]);
    }
  }

  lemma {:induction false} SavesInAppend(a: seq<Call>, b: seq<Call>)
    ensures SavesIn(a + b) == SavesIn(a) + SavesIn(b)
    decreases a
  {
    if a == [] {
      assert a + b == b;
    } else {
      assert (a + b)[0] == a[0];
      assert (a + b)[1..] == a[1..] + b;
      SavesInAppend(a[1..], b);
    }
  }

  // ---------------------------------------------------------------------
  // The repository is reached exactly when every check passes.
  // ---------------------------------------------------------------------

  /** After a successful extraction the new entity is saved, last, and the save decides the outcome. */
  lemma SaveEndsExtraction(root: Element, decimal: string -> Option<Decimal>, save: PointOfSale -> Stored,
                           pos: PointOfSale)
    requires Extract(root, decimal).value == Fields(pos.name, pos.latitude, pos.longitude)
    requires pos.id == None
    ensures ExtractAndSave(root, decimal, save).calls == Extract(root, decimal).calls + [Save(pos)]
    ensures ExtractAndSave(root, decimal, save).outcome ==
            match save(pos)
            case Stored(saved) => Returned(saved)
            case SaveThrew(ex) => Threw(SaveFailed(ex))
  {
  }

  /**
   * Once extraction succeeds, the repository is called once, after every
   * other call, and the import ends as the save does.
   */
  lemma SavedOnceAfterExtraction(text: string, parse: string -> Parsed, decimal: string -> Option<Decimal>,
                                 save: PointOfSale -> Stored, pos: PointOfSale)
    requires text != "" && parse(text).WellFormed?
    requires Extract(parse(text).root, decimal).value == Fields(pos.name, pos.latitude, pos.longitude)
    requires pos.id == None
    ensures SavesIn(Import(Body(text), parse, decimal, save).calls) == [pos]
    ensures Import(Body(text), parse, decimal, save).calls ==
            [ParseXml(text)] + Extract(parse(text).root, decimal).calls + [Save(pos)]
    ensures Import(Body(text), parse, decimal, save).result ==
            match save(pos)
            case Stored(saved) => Saved(saved)
            case SaveThrew(ex) => Failed(ImportError(SaveFailed(ex), !ex.illegalArgument))
  {
    var root := parse(text).root;
    var calls := [ParseXml(text)] + Extract(root, decimal).calls;
    SaveEndsExtraction(root, decimal, save, pos);
    var rest := ExtractAndSave(root, decimal, save);
    assert TryImport(Body(text), parse, decimal, save) == Attempt(rest.outcome, [ParseXml(text)] + rest.calls);
    assert [ParseXml(text)] + rest.calls == calls + [Save(pos)];
    SavesInAppend(calls, [Save(pos)]);
    NoSaveCalls(calls);
    assert SavesIn([Save(pos)]) == [pos];
  }

  /** A rejected extraction ends the import with its cause, unwrapped, before any save. */
  lemma RejectedExtractionFails(text: string, parse: string -> Parsed, decimal: string -> Option<Decimal>,
                                save: PointOfSale -> Stored)
    requires text != "" && parse(text).WellFormed?
    requires Extract(parse(text).root, decimal).value.Rejected?
    ensures Import(Body(text), parse, decimal, save) ==
            Run(Failed(ImportError(Extract(parse(text).root, decimal).value.cause, false)),
                [ParseXml(text)] + Extract(parse(text).root, decimal).calls)
  {
  }

  /**
   * When every check passes, the repository is called exactly once, with
   * the entity built from the extracted values (the name untrimmed), and
   * its answer decides the result: a returned entity is returned unchanged,
   * an exception escapes wrapped unless it is an IllegalArgumentException.
   */
  lemma ImportableIsSavedOnce(fetched: Fetched, parse: string -> Parsed, decimal: string -> Option<Decimal>,
                              save: PointOfSale -> Stored, pos: PointOfSale)
    requires Importable(fetched, parse, decimal, pos)
    ensures SavesIn(Import(fetched, parse, decimal, save).calls) == [pos]
    ensures save(pos).Stored? ==> Import(fetched, parse, decimal, save).result == Saved(save(pos).entity)
    ensures save(pos).SaveThrew? ==>
              Import(fetched, parse, decimal, save).result ==
              Failed(ImportError(SaveFailed(save(pos).ex), !save(pos).ex.illegalArgument))
  {
    ExtractMatchesReference(parse(fetched.text).root, decimal, pos.name, pos.latitude, pos.longitude);
    SavedOnceAfterExtraction(fetched.text, parse, decimal, save, pos);
  }

  /** Only the entity built from a successful extraction is ever handed to the repository. */
  lemma SaveFollowsExtraction(fetched: Fetched, parse: string -> Parsed, decimal: string -> Option<Decimal>,
                              save: PointOfSale -> Stored, pos: PointOfSale)
    requires Save(pos) in Import(fetched, parse, decimal, save).calls
    ensures fetched.Body? && fetched.text != "" && parse(fetched.text).WellFormed? && pos.id == None
    ensures Extract(parse(fetched.text).root, decimal).value == Fields(pos.name, pos.latitude, pos.longitude)
  {
    assert fetched.Body? && fetched.text != "" && parse(fetched.text).WellFormed?;
    var root := parse(fetched.text).root;
    var rest := ExtractAndSave(root, decimal, save);
    assert Import(fetched, parse, decimal, save).calls == [ParseXml(fetched.text)] + rest.calls;
    assert Save(pos) in rest.calls;
    SavedAfterExtraction(root, decimal, save, pos);
  }

  /** The repository is reached after the parse only with the entity extraction built. */
  lemma SavedAfterExtraction(root: Element, decimal: string -> Option<Decimal>, save: PointOfSale -> Stored,
                             pos: PointOfSale)
    requires Save(pos) in ExtractAndSave(root, decimal, save).calls
    ensures pos.id == None && Extract(root, decimal).value == Fields(pos.name, pos.latitude, pos.longitude)
  {
    assert Save(pos) !in Extract(root, decimal).calls;
  }

  /** The repository sees an entity if and only if every check accepted exactly that entity. */
  lemma SaveReachedIffImportable(fetched: Fetched, parse: string -> Parsed, decimal: string -> Option<Decimal>,
                                 save: PointOfSale -> Stored, pos: PointOfSale)
    ensures Save(pos) in Import(fetched, parse, decimal, save).calls <==> Importable(fetched, parse, decimal, pos)
  {
    if Importable(fetched, parse, decimal, pos) {
      ImportableIsSavedOnce(fetched, parse, decimal, save, pos);
      assert pos in SavesIn(Import(fetched, parse, decimal, save).calls);
    }
    if Save(pos) in Import(fetched, parse, decimal, save).calls {
      SaveFollowsExtraction(fetched, parse, decimal, save, pos);
      ExtractMatchesReference(parse(fetched.text).root, decimal, pos.name, pos.latitude, pos.longitude);
    }
  }

  /** When some check fails, the repository is never called and the import fails. */
  lemma NotImportableIsNeverSaved(fetched: Fetched, parse: string -> Parsed, decimal: string -> Option<Decimal>,
                                  save: PointOfSale -> Stored)
    requires forall pos :: !Importable(fetched, parse, decimal, pos)
    ensures SavesIn(Import(fetched, parse, decimal, save).calls) == []
    ensures Import(fetched, parse, decimal, save).result.Failed?
  {
    var run := Import(fetched, parse, decimal, save);
    if SavesIn(run.calls) != [] {
      var pos := SavesIn(run.calls)[0];
      SaveReachedIffImportable(fetched, parse, decimal, save, pos);
    }
  }

  // ---------------------------------------------------------------------
  // The order of the checks, and what each failure looks like.
  // ---------------------------------------------------------------------

  /** A null or empty body fails at once, unwrapped; nothing is parsed or saved. */
  lemma NoResponseStopsFirst(fetched: Fetched, parse: string -> Parsed, decimal: string -> Option<Decimal>,
                             save: PointOfSale -> Stored)
    requires fetched == NullBody || fetched == Body("")
    ensures Import(fetched, parse, decimal, save) == Run(Failed(ImportError(NoResponse, false)), [])
  {
  }

  /** A body the XML parser rejects fails wrapped, after the one parse call. */
  lemma MalformedIsWrapped(text: string, parse: string -> Parsed, decimal: string -> Option<Decimal>,
                           save: PointOfSale -> Stored)
    requires text != "" && parse(text).Malformed?
    ensures Import(Body(text), parse, decimal, save) ==
            Run(Failed(ImportError(MalformedXml(parse(text).message), true)), [ParseXml(text)])
  {
  }

  /**
   * Without an element called "node" strictly below the document element
   * the import fails with NoNode; the document element itself is never a
   * candidate.
   */
  lemma NoNodeBelowRoot(text: string, parse: string -> Parsed, decimal: string -> Option<Decimal>,
                        save: PointOfSale -> Stored)
    requires text != "" && parse(text).WellFormed?
    requires forall x :: x in Descendants(parse(text).root) ==> x.name != "node"
    ensures Import(Body(text), parse, decimal, save) == Run(Failed(ImportError(NoNode, false)), [ParseXml(text)])
  {
    FirstNodeIsEarliest(parse(text).root);
  }

  /**
   * The document element is never the node the import reads, even when it
   * is itself called "node": the search covers its proper descendants only.
   */
  lemma RootNamedNodeIsNotFound(root: Element)
    ensures FirstNode(root) != Some(root)
  {
  }

  /** An absent or empty coordinate is reported before any decimal is parsed. */
  lemma CoordinatesCheckedBeforeParsing(text: string, parse: string -> Parsed, decimal: string -> Option<Decimal>,
                                        save: PointOfSale -> Stored, node: Element)
    requires text != "" && parse(text).WellFormed? && IsFirstNode(parse(text).root, node)
    requires GetAttribute(node, "lat") == "" || GetAttribute(node, "lon") == ""
    ensures Import(Body(text), parse, decimal, save) ==
            Run(Failed(ImportError(NoCoordinates, false)), [ParseXml(text)])
  {
    FirstNodeIsUnique(parse(text).root, node);
  }

  /**
   * A latitude that is not a decimal escapes unwrapped as the parser's
   * NumberFormatException, before the longitude is parsed and before any
   * name is looked for.
   */
  lemma InvalidLatitudeBeforeName(text: string, parse: string -> Parsed, decimal: string -> Option<Decimal>,
                                  save: PointOfSale -> Stored, node: Element)
    requires text != "" && parse(text).WellFormed? && IsFirstNode(parse(text).root, node)
    requires GetAttribute(node, "lat") != "" && GetAttribute(node, "lon") != ""
    requires decimal(GetAttribute(node, "lat")).None?
    ensures Import(Body(text), parse, decimal, save) ==
            Run(Failed(ImportError(InvalidNumber(GetAttribute(node, "lat")), false)),
                [ParseXml(text), ParseDecimal(GetAttribute(node, "lat"))])
  {
    FirstNodeIsUnique(parse(text).root, node);
  }

  /** A longitude that is not a decimal escapes unwrapped, before any name is looked for. */
  lemma InvalidLongitudeBeforeName(text: string, parse: string -> Parsed, decimal: string -> Option<Decimal>,
                                   save: PointOfSale -> Stored, node: Element)
    requires text != "" && parse(text).WellFormed? && IsFirstNode(parse(text).root, node)
    requires GetAttribute(node, "lat") != "" && GetAttribute(node, "lon") != ""
    requires decimal(GetAttribute(node, "lat")).Some? && decimal(GetAttribute(node, "lon")).None?
    ensures Import(Body(text), parse, decimal, save) ==
            Run(Failed(ImportError(InvalidNumber(GetAttribute(node, "lon")), false)),
                [ParseXml(text), ParseDecimal(GetAttribute(node, "lat")), ParseDecimal(GetAttribute(node, "lon"))])
  {
    FirstNodeIsUnique(parse(text).root, node);
  }

  /** With valid coordinates, a node without a `name` tag below it fails with NoName and is not saved. */
  lemma NoNameTagFails(text: string, parse: string -> Parsed, decimal: string -> Option<Decimal>,
                       save: PointOfSale -> Stored, node: Element)
    requires text != "" && parse(text).WellFormed? && IsFirstNode(parse(text).root, node)
    requires GetAttribute(node, "lat") != "" && GetAttribute(node, "lon") != ""
    requires decimal(GetAttribute(node, "lat")).Some? && decimal(GetAttribute(node, "lon")).Some?
    requires forall t :: t in ElementsByTagName(node, "tag") ==> GetAttribute(t, "k") != "name"
    ensures Import(Body(text), parse, decimal, save) ==
            Run(Failed(ImportError(NoName, false)),
                [ParseXml(text), ParseDecimal(GetAttribute(node, "lat")), ParseDecimal(GetAttribute(node, "lon"))])
  {
    FirstNodeIsUnique(parse(text).root, node);
    var tags := ElementsByTagName(node, "tag");
    NameTagIsFirstMatch(tags);
    assert forall i :: 0 <= i < |tags| ==> GetAttribute(tags[i], "k") != "name" by {
      forall i | 0 <= i < |tags| ensures GetAttribute(tags[i], "k") != "name" {
        assert tags[i] in tags;
      }
    }
  }

  /**
   * With valid coordinates, a first name tag whose value String.trim
   * empties fails with NoName and is not saved, whatever later name tags hold.
   */
  lemma BlankNameTagFails(text: string, parse: string -> Parsed, decimal: string -> Option<Decimal>,
                          save: PointOfSale -> Stored, node: Element, name: string)
    requires text != "" && parse(text).WellFormed? && IsFirstNode(parse(text).root, node)
    requires GetAttribute(node, "lat") != "" && GetAttribute(node, "lon") != ""
    requires decimal(GetAttribute(node, "lat")).Some? && decimal(GetAttribute(node, "lon")).Some?
    requires IsNameOf(node, name)
    requires forall i :: 0 <= i < |name| ==> Trimmable(name[i])
    ensures Import(Body(text), parse, decimal, save) ==
            Run(Failed(ImportError(NoName, false)),
                [ParseXml(text), ParseDecimal(GetAttribute(node, "lat")), ParseDecimal(GetAttribute(node, "lon"))])
  {
    FirstNodeIsUnique(parse(text).root, node);
    NameTagIsUnique(node, name);
    assert IsBlank(name);
    assert Extract(parse(text).root, decimal) ==
           Extraction(Rejected(NoName), [ParseDecimal(GetAttribute(node, "lat")), ParseDecimal(GetAttribute(node, "lon"))]);
  }

  /** The scan stops at the first name tag: tags after it are never consulted. */
  lemma {:induction false} FirstNameTagWins(a: seq<Element>, b: seq<Element>)
    requires NameTag(a).Some?
    ensures NameTag(a + b) == NameTag(a)
    decreases a
  {
    assert a != [];
    assert (a + b)[0] == a[0];
    if GetAttribute(a[0], "k") != "name" {
      assert (a + b)[1..] == a[1..] + b;
      assert NameTag(a) == NameTag(a[1..]);
      FirstNameTagWins(a[1..], b);
      assert NameTag(a + b) == NameTag((a + b)[1..]);
    }
  }

  /** Adding elements around the document element's children keeps its first node, if the ones before hold none. */
  lemma FirstNodeSurvivesWrapping(root: Element, root': Element, before: seq<Element>, after: seq<Element>)
    requires FirstNode(root).Some?
    requires forall x :: x in Preorder(before) ==> x.name != "node"
    requires root'.children == before + root.children + after
    ensures FirstNode(root') == FirstNode(root)
  {
    FirstNamedSurvivesWrapping(root.children, before, after, "node");
  }

  /**
   * Elements outside the first node are never read: wrapping the document
   * element's children in further elements, where those placed before hold
   * no `node`, leaves the whole import unchanged, whatever tags or nodes the
   * added elements carry.
   */
  lemma OutsideFirstNodeIgnored(text: string, parse: string -> Parsed, parse': string -> Parsed,
                                decimal: string -> Option<Decimal>, save: PointOfSale -> Stored,
                                node: Element, before: seq<Element>, after: seq<Element>)
    requires text != "" && parse(text).WellFormed? && IsFirstNode(parse(text).root, node)
    requires forall x :: x in Preorder(before) ==> x.name != "node"
    requires parse'(text) == WellFormed(Element(parse(text).root.name, parse(text).root.attributes,
                                                before + parse(text).root.children + after))
    ensures Import(Body(text), parse', decimal, save) == Import(Body(text), parse, decimal, save)
  {
    FirstNodeIsUnique(parse(text).root, node);
    FirstNodeSurvivesWrapping(parse(text).root, parse'(text).root, before, after);
    assert Extract(parse'(text).root, decimal) == Extract(parse(text).root, decimal);
  }

  // ---------------------------------------------------------------------
  // Concrete documents.
  // ---------------------------------------------------------------------

  function Tag(k: string, v: string): Element
  {
    Element("tag", [Attribute("k", k), Attribute("v", v)], [])
  }

  function NodeAt(lat: string, lon: string, children: seq<Element>): Element
  {
    Element("node", [Attribute("lat", lat), Attribute("lon", lon)], children)
  }

  lemma TagAttributes(k: string, v: string)
    ensures GetAttribute(Tag(k, v), "k") == k && GetAttribute(Tag(k, v), "v") == v
  {
  }

  lemma NodeAttributes(lat: string, lon: string, children: seq<Element>)
    ensures GetAttribute(NodeAt(lat, lon, children), "lat") == lat
    ensures GetAttribute(NodeAt(lat, lon, children), "lon") == lon
  {
  }

  /** A document element whose first child is a `node` selects that child. */
  lemma FirstChildNodeIsSelected(root: Element)
    requires root.children != [] && root.children[0].name == "node"
    ensures FirstNode(root) == Some(root.children[0])
  {
    assert Descendants(root)[0] == root.children[0];
  }

  /**
   * <osm><node lat="49.41" lon="8.71"><tag k="name" v="Café Central"/></node></osm>
   * is saved once as a point of sale with exactly those three values.
   */
  lemma CafeCentralIsImported(text: string, parse: string -> Parsed, decimal: string -> Option<Decimal>,
                              save: PointOfSale -> Stored)
    requires text != ""
    requires parse(text) == WellFormed(Element("osm", [], [NodeAt("49.41", "8.71", [Tag("name", "Café Central")])]))
    requires decimal("49.41") == Some(Decimal(4941, 2)) && decimal("8.71") == Some(Decimal(871, 2))
    ensures SavesIn(Import(Body(text), parse, decimal, save).calls) ==
            [PointOfSale(None, "Café Central", Decimal(4941, 2), Decimal(871, 2))]
    ensures save(PointOfSale(None, "Café Central", Decimal(4941, 2), Decimal(871, 2))).Stored? ==>
            Import(Body(text), parse, decimal, save).result ==
            Saved(save(PointOfSale(None, "Café Central", Decimal(4941, 2), Decimal(871, 2))).entity)
  {
    var tag := Tag("name", "Café Central");
    var node := NodeAt("49.41", "8.71", [tag]);
    assert Preorder([tag]) == [tag];
    assert Descendants(parse(text).root) == [node, tag];
    assert ElementsByTagName(parse(text).root, "node") == [node];
    assert ElementsByTagName(node, "tag") == [tag];
    assert GetAttribute(node, "lat") == "49.41";
    assert GetAttribute(node, "lon") == "8.71";
    assert NameTag([tag]) == Some("Café Central");
    assert !Trimmable("Café Central"[0]);
    assert Extract(parse(text).root, decimal).value == Fields("Café Central", Decimal(4941, 2), Decimal(871, 2));
    SavedOnceAfterExtraction(text, parse, decimal, save, PointOfSale(None, "Café Central", Decimal(4941, 2), Decimal(871, 2)));
  }

  /** <osm><node lat="1.0" lon="2.0"></node></osm> fails with NoName and saves nothing. */
  lemma NodeWithoutTagsHasNoName(text: string, parse: string -> Parsed, decimal: string -> Option<Decimal>,
                                 save: PointOfSale -> Stored)
    requires text != ""
    requires parse(text) == WellFormed(Element("osm", [], [NodeAt("1.0", "2.0", [])]))
    requires decimal("1.0").Some? && decimal("2.0").Some?
    ensures Import(Body(text), parse, decimal, save) ==
            Run(Failed(ImportError(NoName, false)), [ParseXml(text), ParseDecimal("1.0"), ParseDecimal("2.0")])
  {
    var node := NodeAt("1.0", "2.0", []);
    assert Descendants(parse(text).root) == [node];
    assert GetAttribute(node, "lat") == "1.0";
    assert GetAttribute(node, "lon") == "2.0";
  }

  /** With valid coordinates, a blank first name tag rejects the node after both decimal parses. */
  lemma BlankNameRejected(node: Element, decimal: string -> Option<Decimal>)
    requires GetAttribute(node, "lat") != "" && GetAttribute(node, "lon") != ""
    requires decimal(GetAttribute(node, "lat")).Some? && decimal(GetAttribute(node, "lon")).Some?
    requires NameTag(ElementsByTagName(node, "tag")).Some? && IsBlank(NameTag(ElementsByTagName(node, "tag")).value)
    ensures FromNode(node, decimal) ==
            Extraction(Rejected(NoName), [ParseDecimal(GetAttribute(node, "lat")), ParseDecimal(GetAttribute(node, "lon"))])
  {
  }

  /**
   * A blank first name tag is not skipped in favour of a later one:
   * <node lat="1.0" lon="2.0"><tag k="name" v=" "/><tag k="name" v="Kiosk"/></node>
   * is rejected with NoName.
   */
  lemma BlankFirstNameHidesLaterOne(root: Element, decimal: string -> Option<Decimal>)
    requires root == Element("osm", [], [NodeAt("1.0", "2.0", [Tag("name", " "), Tag("name", "Kiosk")])])
    requires decimal("1.0").Some? && decimal("2.0").Some?
    ensures Extract(root, decimal) == Extraction(Rejected(NoName), [ParseDecimal("1.0"), ParseDecimal("2.0")])
  {
    var blank, kiosk := Tag("name", " "), Tag("name", "Kiosk");
    var tags := [blank, kiosk];
    var node := NodeAt("1.0", "2.0", tags);
    FirstChildNodeIsSelected(root);
    NodeAttributes("1.0", "2.0", tags);
    assert ElementsByTagName(node, "tag") == tags by {
      assert Preorder([kiosk]) == [kiosk];
      assert tags[1..] == [kiosk];
    }
    assert NameTag(tags) == Some(" ") by {
      TagAttributes("name", " ");
    }
    assert IsBlank(" ");
    BlankNameRejected(node, decimal);
  }

  /**
   * A name tag on a sibling of the first node is never read:
   * <osm><node lat="1.0" lon="2.0"/><way><tag k="name" v="Kiosk"/></way></osm>
   * fails with NoName.
   */
  lemma SiblingTagIsNotTheName(text: string, parse: string -> Parsed, decimal: string -> Option<Decimal>,
                               save: PointOfSale -> Stored)
    requires text != ""
    requires parse(text) == WellFormed(Element("osm", [], [NodeAt("1.0", "2.0", []),
                                                          Element("way", [], [Tag("name", "Kiosk")])]))
    requires decimal("1.0").Some? && decimal("2.0").Some?
    ensures Import(Body(text), parse, decimal, save).result == Failed(ImportError(NoName, false))
  {
    var node := NodeAt("1.0", "2.0", []);
    FirstChildNodeIsSelected(parse(text).root);
    NodeAttributes("1.0", "2.0", []);
    assert ElementsByTagName(node, "tag") == [];
  }
}
