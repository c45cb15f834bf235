/** The selective resave of the document facade: `update` stages the main
    part's freshly serialised bytes (lib/docx/document.rb:101-103) and the
    copy loop of `save` (lines 58-70) streams every source entry, in order,
    into the new package. The archive is an in-memory list of named byte
    blobs; opening, compressing and writing files are not modelled. */
module Package {
  import opened Optional

  newtype byte = x: int | 0 <= x < 256

  type Bytes = seq<byte>

  /** A named entry of the package. */
  datatype Entry = Entry(name: string, data: Bytes)

  /** Pending replacements: entry name to the bytes to write instead. */
  type Replacements = map<string, Bytes>

  /** The main document part, the one entry `update` restages. */
  const MainPart := "word/document.xml"

  /** The entry names, in archive order. */
  function Names(es: seq<Entry>): seq<string>
  {
    if es == [] then [] else [es[0].name] + Names(es[1..])
  }

  /** The bytes of the first entry called `name`, as a read by name finds them. */
  function Lookup(es: seq<Entry>, name: string): Option<Bytes>
  {
    if es == [] then None
    else if es[0].name == name then Some(es[0].data)
    else Lookup(es[1..], name)
  }

  /** `update`: the serialised main part is staged under its entry name,
      whether or not anything was edited; every other pending replacement is
      kept as it was. */
  function Stage(replace: Replacements, serialized: Bytes): (r: Replacements)
    ensures MainPart in r && r[MainPart] == serialized
    ensures forall n :: n != MainPart ==> (n in r <==> n in replace)
    ensures forall n :: n != MainPart && n in replace ==> r[n] == replace[n]
  {
    replace[MainPart := serialized]
  }

  /** Staging the same bytes again changes nothing: a second save without
      edits stages what the first one did. */
  lemma StageIdempotent(replace: Replacements, serialized: Bytes)
    ensures Stage(Stage(replace, serialized), serialized) == Stage(replace, serialized)
  {
  }

  /** What the copy loop writes for one source entry: the same name, with the
      pending replacement if there is one and the original bytes otherwise. */
  function Written(e: Entry, replace: Replacements): (w: Entry)
    ensures w.name == e.name
    ensures e.name in replace ==> w.data == replace[e.name]
    ensures e.name !in replace ==> w == e
  {
    Entry(e.name, if e.name in replace then replace[e.name] else e.data)
  }

  /** `out` is `entries` streamed through the pending replacements, entry for
      entry and in the same order. */
  predicate StreamedFrom(out: seq<Entry>, entries: seq<Entry>, replace: Replacements)
  {
    |out| == |entries| && forall i :: 0 <= i < |out| ==> out[i] == Written(entries[i], replace)
  }

  /** The copy loop of `save`: each source entry, in order, is written under
      its own name, with the replacement bytes if any are staged for it and
      its own bytes verbatim otherwise. */
  method Stream(entries: seq<Entry>, replace: Replacements) returns (out: seq<Entry>)
    ensures |out| == |entries|
    ensures forall i :: 0 <= i < |out| ==> out[i].name == entries[i].name
    ensures forall i :: 0 <= i < |out| && entries[i].name in replace ==>
              out[i].data == replace[entries[i].name]
    ensures forall i :: 0 <= i < |out| && entries[i].name !in replace ==> out[i] == entries[i]
  {
    out := [];
    var i := 0;
    while i < |entries|
      invariant 0 <= i <= |entries|
      invariant |out| == i
      invariant forall k :: 0 <= k < i ==> out[k].name == entries[k].name
      invariant forall k :: 0 <= k < i && entries[k].name in replace ==>
                  out[k].data == replace[entries[k].name]
      invariant forall k :: 0 <= k < i && entries[k].name !in replace ==> out[k] == entries[k]
    {
      var entry := entries[i];
      if entry.name in replace {
        out := out + [Entry(entry.name, replace[entry.name])];
      } else {
        out := out + [Entry(entry.name, entry.data)];
      }
      i := i + 1;
    }
  }

  /** The loop's postconditions say exactly that the output is the streamed
      archive. */
  lemma StreamSpecIsStreamedFrom(out: seq<Entry>, entries: seq<Entry>, replace: Replacements)
    requires |out| == |entries|
    requires forall i :: 0 <= i < |out| ==> out[i].name == entries[i].name
    requires forall i :: 0 <= i < |out| && entries[i].name in replace ==>
               out[i].data == replace[entries[i].name]
    requires forall i :: 0 <= i < |out| && entries[i].name !in replace ==> out[i] == entries[i]
    ensures StreamedFrom(out, entries, replace)
  {
  }

  lemma StreamedTail(out: seq<Entry>, entries: seq<Entry>, replace: Replacements)
    requires StreamedFrom(out, entries, replace) && |entries| > 0
    ensures StreamedFrom(out[1..], entries[1..], replace)
    ensures out[0] == Written(entries[0], replace)
  {
  }

  /** The new package has the same entry names in the same order. */
  lemma {:induction false} StreamKeepsNames(out: seq<Entry>, entries: seq<Entry>, replace: Replacements)
    requires StreamedFrom(out, entries, replace)
    ensures Names(out) == Names(entries)
  {
    if entries != [] {
      StreamedTail(out, entries, replace);
      StreamKeepsNames(out[1..], entries[1..], replace);
    }
  }

  /** Reading any entry of the new package by name gives the staged bytes
      when a replacement is staged for that name, and exactly the source
      package's bytes otherwise; a name the source lacks is still absent. */
  lemma {:induction false} StreamLookup(out: seq<Entry>, entries: seq<Entry>, replace: Replacements,
                                        name: string)
    requires StreamedFrom(out, entries, replace)
    ensures Lookup(out, name).Some? <==> Lookup(entries, name).Some?
    ensures name !in replace ==> Lookup(out, name) == Lookup(entries, name)
    ensures name in replace && Lookup(entries, name).Some? ==> Lookup(out, name) == Some(replace[name])
  {
    if entries != [] {
      StreamedTail(out, entries, replace);
      StreamLookup(out[1..], entries[1..], replace, name);
    }
  }
}
