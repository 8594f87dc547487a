/** The files that a package may hold, by their names. */
module PackageFiles {
  import opened PackagePaths
  import opened Packages

  /** At k there is neither a colon nor a backslash, nor the first of two dots. */
  ghost predicate CleanAt(text: string, k: nat)
    requires k < |text|
  {
    text[k] != ':' && text[k] != '\\' && (text[k] == '.' ==> k + 1 == |text| || text[k + 1] != '.')
  }

  ghost predicate Clean(text: string) {
    forall k :: 0 <= k < |text| ==> CleanAt(text, k)
  }

  lemma CleanLibs(name: string)
    requires name in LIBS || name in RELEASE_LIBS
    ensures Clean(name)
  {
    if name == LIBS[0] || name == LIBS[1] {
      CleanDebugLibs(name);
    } else if name == RELEASE_LIBS[0] || name == RELEASE_LIBS[1] {
      CleanReleaseLibs(name);
    } else {
      CleanSmallLibs(name);
    }
  }

  lemma CleanDebugLibs(name: string)
    requires name in ["Assimp/assimp-vc143-mtd.lib", "DirectXTex/DirectXTex_debug.lib"]
    ensures Clean(name)
  {
  }

  lemma CleanReleaseLibs(name: string)
    requires name in ["Assimp/assimp-vc143-mt.lib", "DirectXTex/DirectXTex.lib"]
    ensures Clean(name)
  {
  }

  lemma CleanSmallLibs(name: string)
    requires name in ["FMOD/fmod_vc.lib", "FX11/Effects11d.lib", "FX11/Effects11.lib"]
    ensures Clean(name)
  {
  }

  lemma CleanRuntime(name: string)
    requires name in RUNTIME || name in RELEASE_RUNTIME
    ensures Clean(name)
  {
    if name in RELEASE_RUNTIME[2..6] {
      CleanStandard(name);
    } else if name in RELEASE_RUNTIME[6..9] {
      CleanRarer(name);
    } else if name in RELEASE_RUNTIME[9..] {
      CleanC(name);
    } else {
      CleanLibraries(name);
    }
  }

  lemma CleanLibraries(name: string)
    requires name in ["assimp-vc143-mtd.dll", "assimp-vc143-mt.dll", "fmod.dll"]
    ensures Clean(name)
  {
  }

  lemma CleanStandard(name: string)
    requires name in ["concrt140.dll", "msvcp140.dll", "msvcp140_1.dll", "msvcp140_2.dll"]
    ensures Clean(name)
  {
  }

  lemma CleanRarer(name: string)
    requires name in ["msvcp140_atomic_wait.dll", "msvcp140_codecvt_ids.dll", "vccorlib140.dll"]
    ensures Clean(name)
  {
  }

  lemma CleanC(name: string)
    requires name in ["vcruntime140.dll", "vcruntime140_1.dll", "vcruntime140_threads.dll", "vcomp140.dll"]
    ensures Clean(name)
  {
  }

  lemma CleanIsSafe(path: string)
    requires Clean(path) && (path != "" ==> path[0] != '/')
    ensures Safe(path)
  {
    forall i, j | NameAt(path, i, j)
      ensures path[i..j] != ".."
    {
      if j == i + 2 {
        assert CleanAt(path, i);
        assert path[i..j][0] == path[i] && path[i..j][1] == path[i + 1];
      }
    }
    forall k | 0 <= k < |path|
      ensures path[k] != ':' && path[k] != '\\'
    {
      assert CleanAt(path, k);
    }
  }

  lemma CleanJoined(folder: string, name: string, path: string)
    requires Clean(name) && path == folder + name && forall k :: 0 <= k < |folder| ==> folder[k] !in {':', '\\', '.'}
    ensures Clean(path)
  {
    forall k | 0 <= k < |path|
      ensures CleanAt(path, k)
    {
      if k >= |folder| {
        assert CleanAt(name, k - |folder|);
      }
    }
  }

  /** Every library and runtime file listed for a configuration may be in its SDK. */
  lemma ListedPermitted(path: string, configuration: string)
    requires (configuration == "Debug|x64" && DebugBinary(path))
             || (configuration == "Release|x64" && ReleaseBinary(path))
    ensures Permitted(path, "sdk", configuration)
  {
    if Holds("Lib/", LIBS, path) || Holds("Lib/", RELEASE_LIBS, path) {
      CleanLibs(path[4..]);
      CleanJoined("Lib/", path[4..], path);
      assert path[0] == path[..4][0];
    } else {
      CleanRuntime(path[8..]);
      CleanJoined("Runtime/", path[8..], path);
      assert path[0] == path[..8][0];
    }
    CleanIsSafe(path);
  }

  lemma NotInside(path: string, j: nat, second: string)
    requires FirstName(path, 0, j) && path[..j] != "Include"
    ensures !Inside(path, "Include", second)
  {
    forall i, j' | FirstName(path, i, j')
      ensures path[i..j'] != "Include"
    {
      FirstUnique(path, i, j', j);
    }
  }

  lemma FirstUnique(path: string, i: int, j: int, j': int)
    requires FirstName(path, i, j) && FirstName(path, 0, j')
    ensures i == 0 && j == j'
  {
    assert NameAt(path, i, j) && NameAt(path, 0, j');
  }

  lemma NotHeader(path: string, j: nat)
    requires FirstName(path, 0, j) && path[..j] != "Include"
    ensures !Header(path)
  {
    NotInside(path, j, "Assimp");
    NotInside(path, j, "DirectXTex");
    NotInside(path, j, "FMOD");
    NotInside(path, j, "FX11");
  }

  lemma LibName(path: string)
    requires |path| >= 4 && path[..4] == "Lib/"
    ensures FirstName(path, 0, 3) && path[..3] == "Lib"
  {
    assert path[..3] == path[..4][..3] && path[3] == path[..4][3];
  }

  lemma RuntimeName(path: string)
    requires |path| >= 8 && path[..8] == "Runtime/"
    ensures FirstName(path, 0, 7) && path[..7] == "Runtime"
  {
    assert path[..7] == path[..8][..7] && path[7] == path[..8][7];
  }

  /** Under Lib/ there are only the configuration's libraries. */
  lemma LibrariesOnly(path: string, configuration: string)
    requires Permitted(path, "sdk", configuration) && |path| >= 4 && path[..4] == "Lib/"
    ensures path[4..] in if configuration == "Release|x64" then
              ["Assimp/assimp-vc143-mt.lib", "DirectXTex/DirectXTex.lib", "FMOD/fmod_vc.lib", "FX11/Effects11.lib"]
            else
              ["Assimp/assimp-vc143-mtd.lib", "DirectXTex/DirectXTex_debug.lib", "FMOD/fmod_vc.lib",
               "FX11/Effects11d.lib"]
  {
    LibName(path);
    NotHeader(path, 3);
    assert path[0] == path[..4][0];
    assert |path| >= 8 ==> path[0] == path[..8][0];
  }

  /** Under Runtime/ there are only the configuration's runtime files. */
  lemma RuntimeOnly(path: string, configuration: string)
    requires Permitted(path, "sdk", configuration) && |path| >= 8 && path[..8] == "Runtime/"
    ensures path[8..] in if configuration == "Release|x64" then
              ["assimp-vc143-mt.dll", "fmod.dll", "concrt140.dll", "msvcp140.dll", "msvcp140_1.dll", "msvcp140_2.dll",
               "msvcp140_atomic_wait.dll", "msvcp140_codecvt_ids.dll", "vccorlib140.dll", "vcruntime140.dll",
               "vcruntime140_1.dll", "vcruntime140_threads.dll", "vcomp140.dll"]
            else ["assimp-vc143-mtd.dll", "fmod.dll"]
  {
    RuntimeName(path);
    assert path[..7][0] == 'R' && "Include"[0] == 'I';
    NotHeader(path, 7);
    assert path[0] == path[..8][0];
    assert path[0] == path[..4][0];
  }
}
