/**
 * The name of the exported mesh (app.py line 55): the stem of the uploaded
 * image's file name followed by the extension ".obj". The stem itself is
 * computed by pathlib and is taken here as given.
 */
module MeshFile {
  import opened Wrappers

  const ObjExtension: string := ".obj"

  /** `f"{image_path.stem}.obj"`. */
  function ObjName(stem: string): (name: string)
    ensures |name| == |stem| + |ObjExtension|
  {
    stem + ObjExtension
  }

  /** The stem a mesh name was built from, or None when it does not end in ".obj". */
  function StemOf(name: string): (stem: Option<string>)
    ensures stem.Some? <==> |name| >= |ObjExtension| && name[|name| - |ObjExtension|..] == ObjExtension
  {
    if |name| >= |ObjExtension| && name[|name| - |ObjExtension|..] == ObjExtension
    then Some(name[..|name| - |ObjExtension|])
    else None
  }

  /** Every exported name ends in ".obj" and gives its stem back. */
  lemma {:induction false} StemOfObjName(stem: string)
    ensures StemOf(ObjName(stem)) == Some(stem)
  {
    var name := ObjName(stem);
    assert name[..|stem|] == stem;
    assert name[|stem|..] == ObjExtension;
  }

  /** A name ending in ".obj" is the export name of its stem. */
  lemma {:induction false} ObjNameOfStem(name: string)
    requires StemOf(name).Some?
    ensures ObjName(StemOf(name).value) == name
  {
    var k := |name| - |ObjExtension|;
    assert name == name[..k] + name[k..];
  }

  /** Different images get different mesh files: the name determines the stem. */
  lemma {:induction false} ObjNameInjective(stem: string, stem': string)
    requires ObjName(stem) == ObjName(stem')
    ensures stem == stem'
  {
    StemOfObjName(stem);
    StemOfObjName(stem');
  }
}
