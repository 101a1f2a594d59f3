/** The diagnostics a macro throws (`DiagnosticsError`), and the helpers that
    build them: a diagnostic with one replacing fix-it, a bare highlighted
    diagnostic, and the "remove this macro" diagnostic. */
module Diagnostics {
  import opened Wrappers
  import opened Syntax

  /** A message and the identifier it is reported under (`DiagnosedMessage`). */
  datatype Message = Message(text: string, id: string)

  datatype Note = Note(node: Node, message: Message)

  /** A fix-it that swaps `oldNode` for `newNode`. */
  datatype FixIt = Replace(message: Message, oldNode: Node, newNode: Node)

  /** `highlights` is `None` when the caller leaves it to the compiler's default. */
  datatype Diagnostic = Diagnostic(node: Node, message: Message, highlights: Option<seq<Node>>, notes: seq<Note>, fixIts: seq<FixIt>)

  datatype DiagnosticsError = DiagnosticsError(diagnostics: seq<Diagnostic>)

  /** One diagnostic at `node` whose fix-it replaces `oldNode` by its edited copy;
      the diagnostic and the fix-it share the identifier `id`. */
  function WithFixIt(title: string, node: Node, oldNode: Node, message: string, edit: Node -> Node, id: string): (r: DiagnosticsError)
    ensures |r.diagnostics| == 1
    ensures var d := r.diagnostics[0];
      && d.node == node && d.message.text == title && d.highlights.None? && d.notes == []
      && |d.fixIts| == 1
      && d.fixIts[0].message.text == message
      && d.fixIts[0].message.id == d.message.id == id
      && d.fixIts[0].oldNode == oldNode
      && d.fixIts[0].newNode == edit(oldNode)
  {
    DiagnosticsError([Diagnostic(node, Message(title, id), None, [], [Replace(Message(message, id), oldNode, edit(oldNode))])])
  }

  /** One diagnostic at `node`, with no fix-it. */
  function HighlightOnly(title: string, node: Node, id: string): (r: DiagnosticsError)
    ensures |r.diagnostics| == 1
    ensures var d := r.diagnostics[0];
      d.node == node && d.message == Message(title, id) && d.highlights.None? && d.notes == [] && d.fixIts == []
  {
    DiagnosticsError([Diagnostic(node, Message(title, id), None, [], [])])
  }

  /** The position of the first entry rendered as `text`. */
  function FirstIndexOf(es: seq<AttributeElement>, text: string): (r: Option<nat>)
    ensures r.None? <==> forall i :: 0 <= i < |es| ==> ElementText(es[i]) != text
    ensures r.Some? ==> r.value < |es| && ElementText(es[r.value]) == text
                        && forall j :: 0 <= j < r.value ==> ElementText(es[j]) != text
  {
    if |es| == 0 then None
    else if ElementText(es[0]) == text then Some(0)
    else
      match FirstIndexOf(es[1..], text)
      case None => None
      case Some(i) => Some(i + 1)
  }

  function RemoveAt<T>(s: seq<T>, i: nat): (r: seq<T>)
    requires i < |s|
    ensures |r| == |s| - 1
    ensures forall j :: 0 <= j < i ==> r[j] == s[j]
    ensures forall j :: i <= j < |r| ==> r[j] == s[j + 1]
  {
    s[..i] + s[i + 1..]
  }

  /** The edit of the remove-macro fix-it: drop the entry at `index` from an attribute list. */
  function RemoveElement(index: nat): Node -> Node {
    (n: Node) => if n.AttributeListNode? && index < |n.elements| then AttributeListNode(RemoveAt(n.elements, index)) else n
  }

  /** The diagnostic telling the user to remove the macro written as `node`
      from the declaration `g`: when `g`'s attribute list holds an entry
      rendered like `node`, the fix-it deletes the first such entry. */
  function ShouldRemoveMacro(g: DeclGroup, node: Attribute, message: string, id: string): (r: DiagnosticsError)
    ensures |r.diagnostics| == 1
    ensures r.diagnostics[0].node == AttributeNode(node) && r.diagnostics[0].message == Message(message, id)
    ensures |r.diagnostics[0].fixIts| <= 1
    ensures |r.diagnostics[0].fixIts| == 1 <==> exists i :: 0 <= i < |g.attributes| && ElementText(g.attributes[i]) == node.text
    ensures |r.diagnostics[0].fixIts| == 1 ==>
      var f := r.diagnostics[0].fixIts[0];
      && f.message == Message("Remove `" + node.nameText + "`", id)
      && f.oldNode == AttributeListNode(g.attributes)
      && f.newNode.AttributeListNode?
      && |f.newNode.elements| == |g.attributes| - 1
  {
    match FirstIndexOf(g.attributes, node.text)
    case Some(i) =>
      WithFixIt(message, AttributeNode(node), AttributeListNode(g.attributes), "Remove `" + node.nameText + "`", RemoveElement(i), id)
    case None =>
      HighlightOnly(message, AttributeNode(node), id)
  }

  /** The fix-it removes exactly the first entry rendered like the macro:
      entries before it are kept, those after it move up by one. */
  lemma ShouldRemoveMacroRemovesFirstMatch(g: DeclGroup, node: Attribute, message: string, id: string, i: nat)
    requires i < |g.attributes| && ElementText(g.attributes[i]) == node.text
    requires forall j :: 0 <= j < i ==> ElementText(g.attributes[j]) != node.text
    ensures var d := ShouldRemoveMacro(g, node, message, id).diagnostics[0];
      |d.fixIts| == 1 && d.fixIts[0].newNode == AttributeListNode(g.attributes[..i] + g.attributes[i + 1..])
  {
    var found := FirstIndexOf(g.attributes, node.text);
    assert found == Some(i);
  }

  /** The entries that survive the fix-it, as a bag, are the old entries
      less one copy of the removed macro. */
  lemma ShouldRemoveMacroKeepsOthers(g: DeclGroup, node: Attribute, message: string, id: string)
    requires exists i :: 0 <= i < |g.attributes| && ElementText(g.attributes[i]) == node.text
    ensures var f := ShouldRemoveMacro(g, node, message, id).diagnostics[0].fixIts[0];
      exists e :: e in g.attributes && ElementText(e) == node.text &&
        multiset(f.newNode.elements) + multiset{e} == multiset(g.attributes)
  {
    var i := FirstIndexOf(g.attributes, node.text).value;
    var es := g.attributes;
    assert es == es[..i] + [es[i]] + es[i + 1..];
    assert multiset(es) == multiset(es[..i]) + multiset{es[i]} + multiset(es[i + 1..]);
  }

  /** A macro attached as written is always offered for removal. */
  lemma AttachedMacroIsRemovable(g: DeclGroup, node: Attribute, message: string, id: string)
    requires AttributeItem(node) in g.attributes
    ensures |ShouldRemoveMacro(g, node, message, id).diagnostics[0].fixIts| == 1
  {
    var i :| 0 <= i < |g.attributes| && g.attributes[i] == AttributeItem(node);
    assert ElementText(g.attributes[i]) == node.text;
  }
}
