/** The accepted 3D-model formats. The server spells the list out twice: once
    in the upload filter and once in the listing filter. */
module Formats {
  import opened PathExt

  /** The list the upload filter checks (api-server.js:43-47). */
  const UploadFilterExtensions: seq<string> :=
    [".3dm", ".3ds", ".3mf", ".amf", ".bim", ".brep", ".dae", ".fbx",
     ".fcstd", ".gltf", ".glb", ".ifc", ".iges", ".step", ".stl",
     ".obj", ".off", ".ply", ".wrl"]

  /** The list the listing filter checks (api-server.js:149-151). */
  const ListingExtensions: seq<string> :=
    [".3dm", ".3ds", ".3mf", ".amf", ".bim", ".brep", ".dae", ".fbx",
     ".fcstd", ".gltf", ".glb", ".ifc", ".iges", ".step", ".stl",
     ".obj", ".off", ".ply", ".wrl"]

  /** The upload filter's decision on the client's original file name. */
  predicate UploadAccepts(originalName: string) {
    ToLower(Extname(originalName)) in UploadFilterExtensions
  }

  /** The listing filter's decision on a directory entry's name. */
  predicate ListingKeeps(name: string) {
    ToLower(Extname(name)) in ListingExtensions
  }

  /** A well-formed extension: a leading '.', then at least one character,
      none of them '.', '/' or an upper-case ASCII letter. */
  predicate ExtensionShaped(e: string) {
    && |e| >= 2 && e[0] == '.'
    && Lacks(e[1..], '.') && Lacks(e, '/')
    && NoUpper(e)
  }

  /** The two hand-copied lists hold the same 19 extensions. */
  lemma AllowListsAgree()
    ensures UploadFilterExtensions == ListingExtensions
    ensures |UploadFilterExtensions| == 19
  {
  }

  /** Every listed extension is well-formed, at least four characters long. */
  lemma AllowListShape(e: string)
    requires e in UploadFilterExtensions
    ensures ExtensionShaped(e) && |e| >= 4
  {
    var exts := UploadFilterExtensions;
    var i :| 0 <= i < |exts| && exts[i] == e;
    assert e[0] == '.' && |e| >= 4;
    forall j | 0 <= j < |e| ensures e[j] != '/' && !('A' <= e[j] <= 'Z') && (j > 0 ==> e[j] != '.') {
      if i < 5 {
        assert i == 0 || i == 1 || i == 2 || i == 3 || i == 4;
      } else if i < 10 {
        assert i == 5 || i == 6 || i == 7 || i == 8 || i == 9;
      } else if i < 15 {
        assert i == 10 || i == 11 || i == 12 || i == 13 || i == 14;
      } else {
        assert i == 15 || i == 16 || i == 17 || i == 18;
      }
    }
  }

  /** Both filters take the same decision on every name. */
  lemma FiltersAgree(name: string)
    ensures UploadAccepts(name) <==> ListingKeeps(name)
  {
    AllowListsAgree();
  }

  /** An accepted name has a real extension, and case does not matter. */
  lemma AcceptedHasExtension(name: string)
    requires UploadAccepts(name)
    ensures |Extname(name)| >= 4
    ensures Extname(name)[0] == '.' && Lacks(Extname(name)[1..], '.') && Lacks(Extname(name), '/')
    ensures ExtensionShaped(ToLower(Extname(name)))
  {
    AllowListShape(ToLower(Extname(name)));
    ExtnameShape(name);
  }

  /** For a name without '/', with something before its last '.', the
      decision depends only on that ending, compared case-insensitively. */
  lemma AcceptsPlainName(stem: string, ext: string)
    requires stem != [] && Lacks(stem, '/')
    requires ext != [] && ext[0] == '.' && Lacks(ext[1..], '.') && Lacks(ext, '/')
    requires stem + ext != ".."
    ensures UploadAccepts(stem + ext) <==> ToLower(ext) in UploadFilterExtensions
  {
    ExtnameOfPlainName(stem, ext);
  }

  /** A name without any '.' is rejected. */
  lemma RejectsNameWithoutDot(name: string)
    requires Lacks(name, '.')
    ensures !UploadAccepts(name)
  {
    ExtnameWithoutDot(name);
    if UploadAccepts(name) {
      AcceptedHasExtension(name);
    }
  }

  /** A plain name whose only '.' comes first (".obj") is rejected. */
  lemma RejectsDotFile(name: string)
    requires name != [] && Lacks(name, '/') && name[0] == '.' && Lacks(name[1..], '.')
    ensures !UploadAccepts(name)
  {
    ExtnameOfDotFile(name);
    if UploadAccepts(name) {
      AcceptedHasExtension(name);
    }
  }

  /** Case does not matter: any plain "<stem>.STL", such as "MODEL.STL", is accepted. */
  lemma AcceptsUpperCaseExtension(stem: string)
    requires stem != [] && Lacks(stem, '/')
    ensures UploadAccepts(stem + ".STL")
  {
    AcceptsPlainName(stem, ".STL");
    LowerStl();
    assert UploadFilterExtensions[14] == ".stl";
  }

  lemma LowerStl()
    ensures ToLower(".STL") == ".stl"
  {
  }

  /** Only the last dot counts: "<stem>.gz" is rejected even when the stem
      ends in an accepted extension, as in "a.stl.gz" or "a.tar.gz". */
  lemma RejectsCompressedModel(stem: string)
    requires stem != [] && Lacks(stem, '/')
    ensures !UploadAccepts(stem + ".gz")
  {
    AcceptsPlainName(stem, ".gz");
    assert ToLower(".gz") == ".gz";
    if ".gz" in UploadFilterExtensions {
      AllowListShape(".gz");
    }
  }
}
