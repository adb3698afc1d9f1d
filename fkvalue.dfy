/**
 * The plain-text rendering of a foreign-key value: the representation tree of the
 * referenced record (its own display values and the records it references in turn)
 * flattened to one line, down to a fixed depth.
 */
module FkValue {
  import opened Text

  /** A record as the client displays it: its identity, its display values, and the records it references. */
  datatype Representation = Representation(
    schemaName: string,
    tableName: string,
    identifier: string,
    representation: seq<string>,
    dependencies: seq<Representation>)

  /**
   * `plainRepresentation`: at depth 0 or below only the identifier (after `table:`
   * when both flags ask for it); above, the renderings of the dependencies (one level
   * down, separated and labelled as the caller's deep settings say) followed by the
   * record's own values, the whole optionally wrapped as `table(...)`.
   */
  function PlainRepresentation(rep: Representation, separator: string, maxDepth: int, deepSeparator: string,
                               showTableIdentifier: bool, useTableIdentifier: bool): string
    decreases if maxDepth <= 0 then 0 else maxDepth, 1
  {
    if maxDepth <= 0 then
      if showTableIdentifier && useTableIdentifier then rep.tableName + ":" + rep.identifier else rep.identifier
    else
      var prefix := if useTableIdentifier then rep.tableName + "(" else "";
      var suffix := if useTableIdentifier then ")" else "";
      var res := Join(deepSeparator, rep.representation);
      var depRes := Renderings(rep.dependencies, deepSeparator, maxDepth - 1, showTableIdentifier);
      prefix + Join(separator, depRes + [res]) + suffix
  }

  /** The dependencies rendered one level down, with the deep separator and the table label as shown. */
  function Renderings(deps: seq<Representation>, deepSeparator: string, maxDepth: int, showTableIdentifier: bool)
    : (r: seq<string>)
    ensures |r| == |deps|
    ensures forall i :: 0 <= i < |deps| ==>
      r[i] == PlainRepresentation(deps[i], deepSeparator, maxDepth, deepSeparator, showTableIdentifier, showTableIdentifier)
    decreases if maxDepth <= 0 then 0 else maxDepth, 2
  {
    seq(|deps|, i requires 0 <= i < |deps| =>
      PlainRepresentation(deps[i], deepSeparator, maxDepth, deepSeparator, showTableIdentifier, showTableIdentifier))
  }

  /** The text `FkValue` shows: space-separated at the top, comma-separated below, two levels deep. */
  function FkValueText(rep: Representation): string {
    PlainRepresentation(rep, " ", 2, ", ", true, false)
  }

  /** The tree cut `depth` levels below the node: nodes at the cut keep no dependencies. */
  function Prune(rep: Representation, depth: int): (r: Representation)
    ensures r.tableName == rep.tableName && r.identifier == rep.identifier && r.representation == rep.representation
    ensures |r.dependencies| == if depth <= 0 then 0 else |rep.dependencies|
    decreases if depth <= 0 then 0 else depth
  {
    if depth <= 0 then rep.(dependencies := [])
    else rep.(dependencies := seq(|rep.dependencies|, i requires 0 <= i < |rep.dependencies| =>
                                    Prune(rep.dependencies[i], depth - 1)))
  }

  /** The rendering never looks further than `maxDepth` levels down: the pruned tree renders the same. */
  lemma {:induction false} RenderingIsDepthBounded(rep: Representation, separator: string, maxDepth: int,
                                                   deepSeparator: string, showTableIdentifier: bool,
                                                   useTableIdentifier: bool)
    ensures PlainRepresentation(Prune(rep, maxDepth), separator, maxDepth, deepSeparator, showTableIdentifier, useTableIdentifier)
         == PlainRepresentation(rep, separator, maxDepth, deepSeparator, showTableIdentifier, useTableIdentifier)
    decreases if maxDepth <= 0 then 0 else maxDepth
  {
    if maxDepth > 0 {
      var pruned := Prune(rep, maxDepth);
      var deps := rep.dependencies;
      forall i | 0 <= i < |deps|
        ensures PlainRepresentation(pruned.dependencies[i], deepSeparator, maxDepth - 1, deepSeparator,
                                    showTableIdentifier, showTableIdentifier)
             == PlainRepresentation(deps[i], deepSeparator, maxDepth - 1, deepSeparator,
                                    showTableIdentifier, showTableIdentifier)
      {
        RenderingIsDepthBounded(deps[i], deepSeparator, maxDepth - 1, deepSeparator,
                                showTableIdentifier, showTableIdentifier);
      }
      assert Renderings(pruned.dependencies, deepSeparator, maxDepth - 1, showTableIdentifier)
          == Renderings(deps, deepSeparator, maxDepth - 1, showTableIdentifier);
    }
  }

  lemma {:induction false} JoinEndsWithLast(sep: string, items: seq<string>, last: string)
    ensures EndsWith(Join(sep, items + [last]), last)
    decreases |items|
  {
    if items == [] {
      assert items + [last] == [last];
    } else {
      assert (items + [last])[1..] == items[1..] + [last];
      JoinEndsWithLast(sep, items[1..], last);
      var tail := Join(sep, items[1..] + [last]);
      assert Join(sep, items + [last]) == items[0] + sep + tail;
      assert (items[0] + sep + tail)[|items[0] + sep + tail| - |last|..] == tail[|tail| - |last|..];
    }
  }

  /**
   * Above the depth limit the record's own values, joined by the deep separator,
   * come last (before the closing parenthesis when wrapped), and a wrapped rendering
   * opens with `table(`.
   */
  lemma OwnValuesComeLast(rep: Representation, separator: string, maxDepth: int, deepSeparator: string,
                          showTableIdentifier: bool, useTableIdentifier: bool)
    requires maxDepth > 0
    ensures var r := PlainRepresentation(rep, separator, maxDepth, deepSeparator, showTableIdentifier, useTableIdentifier);
      var own := Join(deepSeparator, rep.representation);
      EndsWith(r, own + (if useTableIdentifier then ")" else ""))
        && (useTableIdentifier ==> StartsWith(r, rep.tableName + "("))
  {
    var depRes := Renderings(rep.dependencies, deepSeparator, maxDepth - 1, showTableIdentifier);
    var own := Join(deepSeparator, rep.representation);
    var body := Join(separator, depRes + [own]);
    JoinEndsWithLast(separator, depRes, own);
    var prefix := if useTableIdentifier then rep.tableName + "(" else "";
    var suffix := if useTableIdentifier then ")" else "";
    var r := prefix + body + suffix;
    assert r == PlainRepresentation(rep, separator, maxDepth, deepSeparator, showTableIdentifier, useTableIdentifier);
    assert r[|r| - |own + suffix|..] == body[|body| - |own|..] + suffix;
    assert r[..|prefix|] == prefix;
  }

  /**
   * At the depth limit only the identifier is shown: it ends the text, and the text is
   * the bare identifier exactly when the table label is not asked for.
   */
  lemma DepthLimitShowsIdentifier(rep: Representation, separator: string, maxDepth: int, deepSeparator: string,
                                  showTableIdentifier: bool, useTableIdentifier: bool)
    requires maxDepth <= 0
    ensures var r := PlainRepresentation(rep, separator, maxDepth, deepSeparator, showTableIdentifier, useTableIdentifier);
      EndsWith(r, rep.identifier)
        && (r == rep.identifier <==> !(showTableIdentifier && useTableIdentifier))
  {
    var r := PlainRepresentation(rep, separator, maxDepth, deepSeparator, showTableIdentifier, useTableIdentifier);
    if showTableIdentifier && useTableIdentifier {
      var tag := rep.tableName + ":";
      assert r == tag + rep.identifier;
      assert r[|r| - |rep.identifier|..] == rep.identifier;
      assert |r| > |rep.identifier|;
    }
  }

  /**
   * The text `FkValue` shows is never wrapped: it ends with the record's own values,
   * comma-separated, and a record that references nothing shows just those.
   */
  lemma FkValueTextEndsWithOwnValues(rep: Representation)
    ensures EndsWith(FkValueText(rep), Join(", ", rep.representation))
    ensures rep.dependencies == [] ==> FkValueText(rep) == Join(", ", rep.representation)
  {
    OwnValuesComeLast(rep, " ", 2, ", ", true, false);
    if rep.dependencies == [] {
      FkValueTextClosedForm(rep);
      assert Branches(rep.dependencies) + [Join(", ", rep.representation)] == [Join(", ", rep.representation)];
    }
  }

  /** How `FkValue` labels a record two levels down: `table:identifier`. */
  function LeafText(rep: Representation): string {
    rep.tableName + ":" + rep.identifier
  }

  /** The labels of a list of records two levels down. */
  function Leaves(deps: seq<Representation>): (r: seq<string>)
    ensures |r| == |deps| && forall i :: 0 <= i < |deps| ==> r[i] == LeafText(deps[i])
  {
    seq(|deps|, i requires 0 <= i < |deps| => LeafText(deps[i]))
  }

  /** How `FkValue` renders a directly referenced record: `table(leaves..., own values)`. */
  function BranchText(rep: Representation): string {
    rep.tableName + "(" + Join(", ", Leaves(rep.dependencies) + [Join(", ", rep.representation)]) + ")"
  }

  /** The renderings of the directly referenced records. */
  function Branches(deps: seq<Representation>): (r: seq<string>)
    ensures |r| == |deps| && forall i :: 0 <= i < |deps| ==> r[i] == BranchText(deps[i])
  {
    seq(|deps|, i requires 0 <= i < |deps| => BranchText(deps[i]))
  }

  /**
   * What `FkValue` shows, written out: the referenced records as `table(...)` and
   * theirs as `table:identifier`, then the record's own values, space-separated at
   * the top.
   */
  lemma FkValueTextClosedForm(rep: Representation)
    ensures FkValueText(rep) == Join(" ", Branches(rep.dependencies) + [Join(", ", rep.representation)])
  {
    var deps := rep.dependencies;
    forall i | 0 <= i < |deps|
      ensures PlainRepresentation(deps[i], ", ", 1, ", ", true, true) == BranchText(deps[i])
    {
      var d := deps[i];
      var leaves := Renderings(d.dependencies, ", ", 0, true);
      assert leaves == Leaves(d.dependencies);
      assert PlainRepresentation(d, ", ", 1, ", ", true, true)
          == d.tableName + "(" + Join(", ", leaves + [Join(", ", d.representation)]) + ")";
    }
    var branches := Renderings(deps, ", ", 1, true);
    assert branches == Branches(deps);
    assert FkValueText(rep) == "" + Join(" ", branches + [Join(", ", rep.representation)]) + "";
    assert "" + Join(" ", branches + [Join(", ", rep.representation)]) + ""
        == Join(" ", branches + [Join(", ", rep.representation)]);
  }
}
