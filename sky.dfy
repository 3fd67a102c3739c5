/**
 * `RE_SetSky`: the sky name is kept (cut to the size of `skyname`) and the
 * six sky faces are looked up as `env/<name><suffix>.pcx`, face `i` taking
 * the suffix `r_skysideimage[i]` names.
 */
module Sky {
  import opened Common

  /** `MAX_QPATH`: the size of `skyname` and of the path buffer, terminator included. */
  const MAX_QPATH: nat := 64

  /** `suf`: the 3D Studio environment map suffixes. */
  const Suffixes: seq<string> := ["rt", "bk", "lf", "ft", "up", "dn"]

  /** `r_skysideimage`: which suffix each sky face loads. */
  const SideImage: seq<nat> := [5, 2, 4, 1, 0, 3]

  /** The sky name as `strncpy` into `skyname` leaves it: at most 63 characters. */
  function SkyName(name: string): (r: string)
    ensures |r| < MAX_QPATH && |r| <= |name| && r == name[..|r|]
    ensures |name| < MAX_QPATH ==> r == name
    ensures |name| >= MAX_QPATH - 1 ==> |r| == MAX_QPATH - 1
  {
    Truncate(name, MAX_QPATH - 1)
  }

  /** The path `Com_sprintf` builds for face `i`, cut to the 63 characters the buffer holds. */
  function FacePath(skyname: string, i: nat): (r: string)
    requires i < 6
    ensures |r| < MAX_QPATH
  {
    Truncate("env/" + skyname + Suffixes[SideImage[i]] + ".pcx", MAX_QPATH - 1)
  }

  /** Every suffix is loaded by exactly one face: `r_skysideimage` is a permutation of the six. */
  lemma SideImageIsPermutation()
    ensures forall i, j | 0 <= i < 6 && 0 <= j < 6 && SideImage[i] == SideImage[j] :: i == j
    ensures forall s | 0 <= s < 6 :: s in SideImage
  {
    assert SideImage[4] == 0 && SideImage[3] == 1 && SideImage[1] == 2;
    assert SideImage[5] == 3 && SideImage[2] == 4 && SideImage[0] == 5;
  }

  /** The suffixes are six different two-letter strings. */
  lemma SuffixesDistinct()
    ensures forall s | 0 <= s < 6 :: |Suffixes[s]| == 2
    ensures forall s, t | 0 <= s < 6 && 0 <= t < 6 && Suffixes[s] == Suffixes[t] :: s == t
  {
    forall s, t | 0 <= s < 6 && 0 <= t < 6 && Suffixes[s] == Suffixes[t]
      ensures s == t
    {
      assert Suffixes[s][0] == Suffixes[t][0] && Suffixes[s][1] == Suffixes[t][1];
    }
  }

  /**
   * A sky name of at most 51 characters fits the path buffer whole: each
   * face path is `env/`, the name, the face's suffix and `.pcx`.
   */
  lemma FacePathWhole(skyname: string, i: nat)
    requires i < 6 && |skyname| <= MAX_QPATH - 1 - 12
    ensures FacePath(skyname, i) == "env/" + skyname + Suffixes[SideImage[i]] + ".pcx"
    ensures |FacePath(skyname, i)| == |skyname| + 10
  {
    SuffixesDistinct();
  }

  /** Within that bound the six faces ask for six different files. */
  lemma FacePathsDistinct(skyname: string, i: nat, j: nat)
    requires i < 6 && j < 6 && i != j && |skyname| <= MAX_QPATH - 1 - 12
    ensures FacePath(skyname, i) != FacePath(skyname, j)
  {
    FacePathWhole(skyname, i);
    FacePathWhole(skyname, j);
    var n := 4 + |skyname|;
    var pi, pj := FacePath(skyname, i), FacePath(skyname, j);
    assert pi[n..n + 2] == Suffixes[SideImage[i]];
    assert pj[n..n + 2] == Suffixes[SideImage[j]];
    SuffixesDistinct();
    SideImageIsPermutation();
  }

  /** The sky globals `RE_SetSky` sets: `skyname`, `skyaxis`, and the file each face of `r_skytexinfo` was looked up by. */
  class SkyState {
    var skyname: string
    var skyaxis: Vec3
    var facePaths: seq<string>

    constructor ()
      ensures skyname == [] && skyaxis == Origin && facePaths == ["", "", "", "", "", ""]
    {
      skyname := [];
      skyaxis := Origin;
      facePaths := ["", "", "", "", "", ""];
    }

    /**
     * `RE_SetSky`. `R_FindImage` is not part of this model: each face
     * records the path it is looked up by. The rotation is not stored.
     */
    method SetSky(name: string, rotate: real, axis: Vec3)
      requires |facePaths| == 6
      modifies this
      ensures skyname == SkyName(name) && skyaxis == axis
      ensures |facePaths| == 6 && forall i | 0 <= i < 6 :: facePaths[i] == FacePath(skyname, i)
    {
      skyname := SkyName(name);
      skyaxis := axis;
      var i := 0;
      while i < 6
        invariant 0 <= i <= 6 && |facePaths| == 6
        invariant skyname == SkyName(name) && skyaxis == axis
        invariant forall j | 0 <= j < i :: facePaths[j] == FacePath(skyname, j)
      {
        var pathname := FacePath(skyname, i);
        facePaths := facePaths[i := pathname];
        i := i + 1;
      }
    }
  }
}
