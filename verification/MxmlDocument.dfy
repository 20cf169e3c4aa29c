/**
  Saving a tree and loading the text again.
*/
module MxmlDocument {
  import opened Basics
  import opened MxmlForest
  import opened MxmlNode
  import opened MxmlTree
  import Entities = MxmlEntity
  import Table = MxmlEntityTable
  import Loading = MxmlLoad
  import Loops = MxmlLoader
  import Writing = MxmlWrite
  import Normal = MxmlNormal
  import RoundTrip = MxmlRoundTrip
  import Spelling = MxmlSpelling

  /**
    For a tree in normal form the loader, with the table of the source, returns the
    document the tree stands for, with attribute names as stored; that is the same
    document exactly if they start with ASCII characters.
  */
  method SaveThenLoad(ghost f: Forest, node: Node, wrap: int, col: int)
    returns (text: seq<byte>, loaded: Loading.Loaded)
    requires Rep(f) && Writing.Shaped(f) && node in f.kids && node.value.Element?
    requires Normal.Normal(Writing.ToTree(f, node))
    ensures text == Write(Writing.ToTree(f, node), wrap, Out([], col)).text
    ensures var t := Writing.ToTree(f, node);
      && loaded == (if Spelling.Fits(Normal.Stored(t)) then Loading.Document(Normal.Stored(t)) else Loading.BadDocument)
      && (loaded == Loading.Document(t) <==> Normal.AsciiStarts(t))
  {
    hide Entities.Standard, Normal.Normal, Loading.Run, Writing.Shaped, Write, Spelling.Fits, Normal.Stored, Normal.AsciiStarts;
    var o := Writing.WriteNode(f, node, wrap, col);
    text := o.text;
    Table.EntitiesStandard();
    StandardUsable(Table.ENTITIES);
    RoundTrip.LoadGives(Table.ENTITIES, Writing.ToTree(f, node), wrap, col, false);
    RoundTrip.LoadWritten(Table.ENTITIES, Writing.ToTree(f, node), wrap, col, false);
    assert text + [] == text;
    loaded := Loops.LoadData(Table.ENTITIES, text);
  }

  lemma StandardUsable(table: seq<Entities.Entity>)
    requires Entities.Standard(table)
    ensures Loops.Usable(table)
  {
  }
}
