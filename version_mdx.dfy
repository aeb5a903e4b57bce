/**
 * The changelog document `Version.mdx` as all four scripts see it: a text holding
 * a sentinel marker after which every new release block is inserted.
 */
module VersionMdx {
  import opened JsString

  /**
   * The sentinel after which release blocks are inserted,
   * `{/* AUTO-GENERATED RELEASES WILL BE INSERTED HERE */}`; written in pieces so that
   * the verifier can see that it holds no `$`.
   */
  const Marker := "{/* " + "AUTO-GENERATED" + " RELEASES" + " WILL BE" + " INSERTED" + " HERE" + " */}"

  /** The first lines of a release block, the version heading and the release date. */
  function BlockHeader(version: string, date: string): string {
    "### Version " + version + "\n\n#### Released on: " + date + "\n\n"
  }

  /**
   * `content.replace(marker, marker + "\n\n" + block)`: the block goes right after
   * the first marker, the rest of the document is kept; without a marker nothing changes.
   */
  function InsertAfterMarker(content: string, block: string): (r: string)
    ensures !Contains(content, Marker) ==> r == content
    ensures Contains(content, Marker) && '$' !in block ==>
      var i := IndexOf(content, Marker);
      r == content[..i] + Marker + "\n\n" + block + content[i + |Marker|..]
  {
    var replacement := Marker + "\n\n" + block;
    assert '$' !in block ==> '$' !in replacement by {
      MarkerHasNoDollar();
    }
    ReplaceFirst(content, Marker, replacement)
  }

  /** The marker holds no `$`, so `replace` inserts the replacement literally. */
  lemma MarkerHasNoDollar()
    ensures '$' !in Marker
  {
  }

  /**
   * After an insertion, the document still begins with the same text up to and
   * including its first marker, so the next insertion lands at the same place,
   * above the block inserted now: the newest release always comes first.
   */
  lemma InsertionKeepsMarker(content: string, block: string)
    requires Contains(content, Marker)
    ensures var i := IndexOf(content, Marker);
      var r := InsertAfterMarker(content, block);
      i + |Marker| <= |r| && r[..i + |Marker|] == content[..i + |Marker|] && IndexOf(r, Marker) == i
  {
    MarkerHasNoDollar();
    ReplaceKeepsPrefix(content, Marker, "\n\n" + block);
    assert Marker + "\n\n" + block == Marker + ("\n\n" + block);
  }
}
