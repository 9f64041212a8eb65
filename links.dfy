/** `get_specific_ext`: picks, from the links of a target page, those whose
    extension is the wanted one, and turns each into a full URL of the archive. */
module Links {
  import opened Common
  import opened Text

  /** The archive's address, which every picked link is appended to. */
  const BaseUrl: string := "https://exofop.ipac.caltech.edu/"

  /** `link.split('.')[-1] == ext`, where a link without `href` (`None`) raises
      and the `except` skips it. */
  predicate HasExt(link: Option<string>, ext: string)
    ensures HasExt(link, ext) ==> link.Some? && '.' !in ext
  {
    link.Some? && LastPart(link.value, '.') == ext
  }

  /** `baseurl + mission + '/' + link`. */
  function Url(link: string, mission: string): string
  {
    BaseUrl + mission + "/" + link
  }

  /** The list the loop of `get_specific_ext` builds: the URL of every link
      with the extension, in order. */
  function Wanted(links: seq<Option<string>>, ext: string, mission: string): (w: seq<string>)
    ensures |w| <= |links|
    ensures forall k :: 0 <= k < |w| ==> BaseUrl <= w[k]
  {
    if links == [] then []
    else
      var last := links[|links| - 1];
      Wanted(links[..|links| - 1], ext, mission) + (if HasExt(last, ext) then [Url(last.value, mission)] else [])
  }

  /** `get_specific_ext`: the loop over the links, then `None` when no link has
      the extension (after the message it prints, left out). */
  method GetSpecificExt(links: seq<Option<string>>, ext: string, mission: string) returns (r: Option<seq<string>>)
    ensures r.None? <==> Wanted(links, ext, mission) == []
    ensures r.Some? ==> r.value == Wanted(links, ext, mission)
  {
    var wanted: seq<string> := [];
    for i := 0 to |links|
      invariant wanted == Wanted(links[..i], ext, mission)
    {
      var link := links[i];
      if link.Some? && LastPart(link.value, '.') == ext {
        wanted := wanted + [BaseUrl + mission + "/" + link.value];
      }
      assert links[..i + 1][..i] == links[..i];
    }
    assert links[..|links|] == links;
    if |wanted| == 0 {
      return None;
    }
    return Some(wanted);
  }

  /** The links are picked one by one: the list for two runs of links is the
      lists of each, one after the other, so the order of the links is kept. */
  lemma {:induction false} WantedAppend(xs: seq<Option<string>>, ys: seq<Option<string>>, ext: string, mission: string)
    ensures Wanted(xs + ys, ext, mission) == Wanted(xs, ext, mission) + Wanted(ys, ext, mission)
    decreases |ys|
  {
    if ys == [] {
      assert xs + ys == xs;
    } else {
      var n := |ys| - 1;
      assert (xs + ys)[..|xs + ys| - 1] == xs + ys[..n];
      WantedAppend(xs, ys[..n], ext, mission);
    }
  }

  /** Link `i` has the extension and `u` is its URL. */
  ghost predicate PickedAt(links: seq<Option<string>>, ext: string, mission: string, u: string, i: int)
  {
    0 <= i < |links| && HasExt(links[i], ext) && u == Url(links[i].value, mission)
  }

  /** A URL is picked exactly when it is the URL of a link with the extension. */
  lemma {:induction false} WantedMembers(links: seq<Option<string>>, ext: string, mission: string, u: string)
    ensures u in Wanted(links, ext, mission) <==> exists i :: PickedAt(links, ext, mission, u, i)
  {
    if links != [] {
      var n := |links| - 1;
      var prev := links[..n];
      WantedMembers(prev, ext, mission, u);
      if u in Wanted(links, ext, mission) {
        if u in Wanted(prev, ext, mission) {
          var i :| PickedAt(prev, ext, mission, u, i);
          assert prev[i] == links[i];
          assert PickedAt(links, ext, mission, u, i);
        } else {
          assert PickedAt(links, ext, mission, u, n);
        }
      }
      if exists i :: PickedAt(links, ext, mission, u, i) {
        var i :| PickedAt(links, ext, mission, u, i);
        if i < n {
          assert prev[i] == links[i];
          assert PickedAt(prev, ext, mission, u, i);
        }
      }
    }
  }

  /** Nothing is picked exactly when no link has the extension. */
  lemma {:induction false} WantedNone(links: seq<Option<string>>, ext: string, mission: string)
    ensures Wanted(links, ext, mission) == [] <==> forall i :: 0 <= i < |links| ==> !HasExt(links[i], ext)
  {
    if links != [] {
      var n := |links| - 1;
      WantedNone(links[..n], ext, mission);
      assert forall i :: 0 <= i < n ==> links[..n][i] == links[i];
    }
  }

  /** A link has the extension when the text after its last dot is the
      extension; a link with no dot at all has it when it is the extension. */
  lemma ExtensionOf(link: string, ext: string)
    ensures HasExt(Some(link), ext) ==>
      '.' !in ext && |ext| <= |link| && link[|link| - |ext|..] == ext &&
      (|ext| < |link| ==> link[|link| - |ext| - 1] == '.') &&
      ('.' !in link ==> link == ext)
    ensures forall p :: '.' !in ext && link == p + ['.'] + ext ==> HasExt(Some(link), ext)
  {
    LastPartAfterLastSep(link, '.');
    forall p | '.' !in ext && link == p + ['.'] + ext ensures HasExt(Some(link), ext) {
      LastPartAfter(p, '.', ext);
    }
  }
}
