/** Printer and parser over linked nodes, one after the other. */
module NodeRoundTrip {
  import opened Json
  import opened JsonParser
  import opened JsonDocument
  import opened NodeList
  import opened NodePool
  import opened PrintBuffer
  import opened ParseBuffer

  /** cJSON_Print and cJSON_ParseWithOpts on its text: a second tree for the same document, on new nodes,
      unless it nests too deeply, and then no block is left. */
  method PrintAndParse(pool: Pool, root: Item, fmt: bool, requireEnd: bool) returns (copy: Item?)
    requires root.Tree() && Printable(root.Document()) && |Serial(root.Document(), fmt, 0)| + 2 <= INT_MAX
    modifies pool
    ensures root.Tree() && (copy != null <==> Levels(root.Document()) <= NESTING_LIMIT)
    ensures copy == null ==> pool.live == old(pool.live)
    ensures copy != null ==>
              && copy.Tree() && copy.Document() == root.Document() && fresh(copy.repr)
              && pool.live == old(pool.live) + Owned(copy)
  {
    hide Item.Tree, Item.Document, Owned, Serial, ParseDocument, Printable, Levels;
    ghost var v := root.Document();
    var text := Print(root, fmt);
    SerialNulFree(v, fmt, 0);
    DocumentRoundTrip(v, fmt, requireEnd);
    var p := new Parser(text.value, pool);
    var at;
    copy, at := p.ParseWithOpts(text.value, requireEnd);
  }
}
