/**
 * The build step run once for every node entering the content layer
 * (`onCreateNode` in gatsby-node.ts): an `Mdx` node gets a `year` field derived
 * from its frontmatter date and an `html` field holding its body rendered as
 * Markdown; every other node is left alone.
 *
 * A node's `fields` object is modelled as a sequence of named entries in
 * insertion order, as a JavaScript object keeps its non-numeric keys (such as
 * `year` and `html`): setting an existing name replaces its value in place,
 * setting a new name appends it.
 */
module GatsbyNode {
  import opened Wrappers
  import opened Dates
  import opened Content

  datatype FieldValue = YearField(year: int) | HtmlField(html: string)

  datatype NodeField = NodeField(name: string, value: FieldValue)

  function FieldNames(fs: seq<NodeField>): (names: seq<string>)
    ensures |names| == |fs|
    ensures forall i :: 0 <= i < |fs| ==> names[i] == fs[i].name
  {
    if fs == [] then [] else [fs[0].name] + FieldNames(fs[1..])
  }

  /** The value stored under `name`, the first entry with that name. */
  function Lookup(fs: seq<NodeField>, name: string): (v: Option<FieldValue>)
    ensures v.None? <==> name !in FieldNames(fs)
    ensures v.Some? ==> NodeField(name, v.value) in fs
  {
    if fs == [] then None
    else if fs[0].name == name then Some(fs[0].value)
    else Lookup(fs[1..], name)
  }

  /** `node.fields[name] = value` on an object whose keys are `FieldNames(fs)`. */
  function SetField(fs: seq<NodeField>, name: string, value: FieldValue): (r: seq<NodeField>)
    ensures name !in FieldNames(fs) ==> r == fs + [NodeField(name, value)]
    ensures name in FieldNames(fs) ==> FieldNames(r) == FieldNames(fs)
  {
    if fs == [] then [NodeField(name, value)]
    else if fs[0].name == name then [NodeField(name, value)] + fs[1..]
    else [fs[0]] + SetField(fs[1..], name, value)
  }

  /** After setting `name`, reading it gives the new value and every other name reads as before. */
  lemma {:induction false} LookupSetField(fs: seq<NodeField>, name: string, value: FieldValue, other: string)
    ensures Lookup(SetField(fs, name, value), name) == Some(value)
    ensures other != name ==> Lookup(SetField(fs, name, value), other) == Lookup(fs, other)
  {
    if fs != [] && fs[0].name != name {
      var r := SetField(fs, name, value);
      LookupSetField(fs[1..], name, value, other);
      assert r[0] == fs[0] && r[1..] == SetField(fs[1..], name, value);
    }
  }

  /** Setting `year` and then `html`: both read back, every other name reads as before. */
  lemma SetYearThenHtml(fs: seq<NodeField>, year: FieldValue, html: FieldValue)
    ensures var r := SetField(SetField(fs, "year", year), "html", html);
      && Lookup(r, "year") == Some(year)
      && Lookup(r, "html") == Some(html)
      && forall name :: name != "year" && name != "html" ==> Lookup(r, name) == Lookup(fs, name)
  {
    var r1 := SetField(fs, "year", year);
    forall name | name != "year" && name != "html"
      ensures Lookup(SetField(r1, "html", html), name) == Lookup(fs, name)
    {
      LookupSetField(fs, "year", year, name);
      LookupSetField(r1, "html", html, name);
    }
    LookupSetField(fs, "year", year, "html");
    LookupSetField(r1, "html", html, "year");
  }

  /** On a node with neither name, `year` and then `html` are appended in that order. */
  lemma AppendYearThenHtml(fs: seq<NodeField>, year: FieldValue, html: FieldValue)
    requires "year" !in FieldNames(fs) && "html" !in FieldNames(fs)
    ensures SetField(SetField(fs, "year", year), "html", html) == fs + [NodeField("year", year), NodeField("html", html)]
  {
    var r1 := SetField(fs, "year", year);
    assert r1 == fs + [NodeField("year", year)];
    FieldNamesAppend(fs, NodeField("year", year));
    assert "html" !in FieldNames(r1);
    assert r1 + [NodeField("html", html)] == fs + [NodeField("year", year), NodeField("html", html)];
  }

  lemma FieldNamesAppend(fs: seq<NodeField>, f: NodeField)
    ensures FieldNames(fs + [f]) == FieldNames(fs) + [f.name]
  {
    assert forall i :: 0 <= i < |fs| ==> (fs + [f])[i] == fs[i];
  }

  class Node {
    /** `node.internal.type` */
    var internalType: string
    var frontmatter: Frontmatter
    /** The raw Markdown/MDX source. */
    var body: string
    var fields: seq<NodeField>

    constructor (internalType: string, frontmatter: Frontmatter, body: string)
      ensures this.internalType == internalType
      ensures this.frontmatter == frontmatter && this.body == body
      ensures fields == []
    {
      this.internalType := internalType;
      this.frontmatter := frontmatter;
      this.body := body;
      fields := [];
    }

    /** `node.fields[name]` */
    function Field(name: string): (v: Option<FieldValue>)
      reads this
    {
      Lookup(fields, name)
    }

    /** The content layer's `createNodeField({ node, name, value })`. */
    method CreateNodeField(name: string, value: FieldValue)
      modifies this
      ensures fields == SetField(old(fields), name, value)
      ensures internalType == old(internalType)
      ensures frontmatter == old(frontmatter) && body == old(body)
    {
      fields := SetField(fields, name, value);
    }

    /**
     * `onCreateNode`. The Markdown renderer (`marked.parse`) is the parameter
     * `render`. The date is required to be a real date only on `Mdx` nodes.
     */
    method OnCreateNode(render: string -> string)
      requires internalType == "Mdx" ==> WellFormedDate(frontmatter.date)
      modifies this
      ensures internalType == old(internalType)
      ensures frontmatter == old(frontmatter) && body == old(body)
      ensures internalType != "Mdx" ==> fields == old(fields)
      ensures internalType == "Mdx" ==>
        fields == SetField(SetField(old(fields), "year", YearField(YearOf(frontmatter.date))),
                           "html", HtmlField(render(body)))
      ensures internalType == "Mdx" ==>
        && Field("year") == Some(YearField(YearOf(frontmatter.date)))
        && Field("html") == Some(HtmlField(render(body)))
        && forall name :: name != "year" && name != "html" ==> Field(name) == old(Field(name))
      ensures internalType == "Mdx" && "year" !in FieldNames(old(fields)) && "html" !in FieldNames(old(fields)) ==>
        fields == old(fields) + [NodeField("year", YearField(YearOf(frontmatter.date))),
                                 NodeField("html", HtmlField(render(body)))]
    {
      if internalType == "Mdx" {
        var year := YearOf(frontmatter.date);
        CreateNodeField("year", YearField(year));
        var html := render(body);
        CreateNodeField("html", HtmlField(html));
        SetYearThenHtml(old(fields), YearField(year), HtmlField(html));
        if "year" !in FieldNames(old(fields)) && "html" !in FieldNames(old(fields)) {
          AppendYearThenHtml(old(fields), YearField(year), HtmlField(html));
        }
      }
    }

    /** The record `allMdx` reads once the node is indexed; it lists `Mdx` nodes only. */
    function AsDoc(id: string, excerpt: string): (d: Option<Doc>)
      reads this
      ensures d.Some? <==> internalType == "Mdx" && Field("year").Some? && Field("year").value.YearField?
      ensures d.Some? ==> d.value.frontmatter == frontmatter && d.value.year == Field("year").value.year
    {
      if internalType != "Mdx" then None
      else
        match Field("year")
        case Some(YearField(y)) => Some(Doc(id, frontmatter, excerpt, y))
        case _ => None
    }
  }

  /** After the build step, an `Mdx` node reads as a document whose `fields.year` is its date's year. */
  method IndexMdxNode(node: Node, render: string -> string, id: string, excerpt: string) returns (d: Doc)
    requires node.internalType == "Mdx" && WellFormedDate(node.frontmatter.date)
    modifies node
    ensures YearDerived(d)
    ensures d.frontmatter == old(node.frontmatter) && d.id == id && d.excerpt == excerpt
  {
    node.OnCreateNode(render);
    var doc := node.AsDoc(id, excerpt);
    d := doc.value;
  }
}
