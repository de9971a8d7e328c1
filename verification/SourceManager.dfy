/** The source manager (thrift/compiler/source_location.cc and source_location.h). */
module SourceManager {
  import opened Wrappers
  import opened SourceText
  import Cache = SourceCache
  import Origins = SourceOrigins

  /** A location; the default one, with both numbers zero, refers to no source. */
  datatype Location = Location(sourceId: nat, offset: nat)

  class Manager {
    const env: Cache.Environment
    var sources: seq<Cache.Source>
    var fileSourceMap: map<string, Cache.View>
    var foundIncludes: map<string, string>

    constructor (env: Cache.Environment)
      ensures this.env == env && Contents() == Cache.EMPTY && Consistent()
    {
      this.env := env;
      sources, fileSourceMap, foundIncludes := [], map[], map[];
    }

    function Contents(): Cache.State
      reads this
    {
      Cache.State(sources, fileSourceMap, foundIncludes)
    }

    /** Names and source ids in bijection, views equal to stored text, line offsets
        in place, and every resolved relative include readable. */
    ghost predicate Consistent()
      reads this
    {
      Cache.Consistent(env, Contents())
    }

    /** Sizes and offsets of sources fit in 32 bits. */
    method AddSource(name: string, content: string) returns (view: Cache.View)
      requires name !in fileSourceMap && |content| < WORD
      modifies this`sources, this`fileSourceMap
      ensures Contents() == Cache.AddSource(old(Contents()), name, content)
      ensures view == fileSourceMap[name]
    {
      var text := Cache.Terminated(content);
      var lineOffsets := GetLineOffsets(text);
      sources := sources + [Cache.Source(name, text, lineOffsets)];
      view := Cache.View(|sources|, text);
      fileSourceMap := fileSourceMap[name := view];
    }

    method GetFile(name: string) returns (view: Option<Cache.View>)
      requires Consistent() && forall p :: env.Exists(p) ==> |env.ReadFile(p).value| < WORD
      modifies this`sources, this`fileSourceMap
      ensures Consistent() && Cache.Grown(old(Contents()), Contents())
      ensures view.Some? <==>
        name in old(fileSourceMap) || Cache.Readable(env, old(Contents()), Cache.PathOf(old(Contents()), name))
      ensures view.Some? ==> Cache.RefersToSource(Contents(), view.value)
      ensures forall path :: Origins.StandsFor(old(Contents()), name, path) ==>
        Origins.IsFile(env, old(Contents()), name, path, view)
      ensures (Contents(), view) == Cache.GetFile(env, old(Contents()), name)
    {
      Cache.GetFileKeeps(env, Contents(), name);
      forall path | Origins.StandsFor(Contents(), name, path)
        ensures Origins.IsFile(env, Contents(), name, path, Cache.GetFile(env, Contents(), name).1)
      {
        Origins.GetFileShows(env, Contents(), name, path);
      }
      hide Origins.IsFile, Origins.StandsFor;
      hide Consistent, Cache.Consistent, Cache.Grown, Cache.RefersToSource, Cache.AddSource;
      if name in fileSourceMap {
        return Some(fileSourceMap[name]);
      }
      var path := name;
      if name in foundIncludes {
        path := foundIncludes[name];
      }
      if path in fileSourceMap {
        return Some(fileSourceMap[path]);
      }
      var content := env.ReadFile(path);
      if content.None? {
        return None;
      }
      var source := AddSource(name, content.value);
      return Some(source);
    }

    method AddVirtualFile(name: string, content: string) returns (view: Option<Cache.View>)
      requires Consistent() && |content| < WORD
      modifies this`sources, this`fileSourceMap
      ensures Consistent() && Cache.Grown(old(Contents()), Contents())
      ensures view.Some? <==> name !in old(fileSourceMap)
      ensures view.Some? ==>
        Cache.RefersToSource(Contents(), view.value) && view.value.text == Cache.Terminated(content)
      ensures (Contents(), view) == Cache.AddVirtualFile(old(Contents()), name, content)
    {
      Cache.AddVirtualFileKeeps(env, Contents(), name, content);
      hide Consistent, Cache.Consistent, Cache.Grown, Cache.RefersToSource, Cache.AddSource;
      if name in fileSourceMap {
        return None;
      }
      var source := AddSource(name, content);
      return Some(source);
    }

    method TrySearchPath(includePath: string, searchPath: string) returns (r: Option<string>)
      ensures r == Cache.FirstReadable(env, Contents(), [searchPath], includePath)
    {
      var fileName := includePath;
      if searchPath != "." && searchPath != "" {
        fileName := env.join(searchPath, includePath);
      }
      if env.Exists(fileName) || fileName in fileSourceMap {
        return Some(fileName);
      }
      return None;
    }

    method FindIncludeFile(includePath: string, searchPaths: seq<string>, program: Option<string>)
      returns (r: Option<string>)
      requires Consistent()
      modifies this`foundIncludes
      ensures Consistent() && Cache.Grown(old(Contents()), Contents())
      ensures r.Some? ==> includePath in foundIncludes && foundIncludes[includePath] == r.value
      ensures r.Some? && !env.isAbsolute(includePath) ==> Cache.Readable(env, Contents(), r.value)
      ensures Origins.IsInclude(env, old(Contents()), includePath, searchPaths, program, r)
      ensures (Contents(), r) == Cache.FindIncludeFile(env, old(Contents()), includePath, searchPaths, program)
    {
      Cache.FindIncludeKeeps(env, Contents(), includePath, searchPaths, program);
      Origins.IncludeIsFound(env, Contents(), includePath, searchPaths, program);
      hide Origins.IsInclude;
      hide Cache.Consistent, Cache.Grown, Cache.Readable, Cache.FirstReadable, Cache.Directories;
      if includePath in foundIncludes {
        return Some(foundIncludes[includePath]);
      }
      if includePath in fileSourceMap {
        r := Some(includePath);
      } else if env.isAbsolute(includePath) {
        r := env.canonical(includePath);
      } else {
        r := SearchDirectories(includePath, searchPaths, program);
      }
      if r.Some? {
        foundIncludes := foundIncludes[includePath := r.value];
      }
    }

    method SearchDirectories(includePath: string, searchPaths: seq<string>, program: Option<string>)
      returns (r: Option<string>)
      ensures Origins.IsSearched(env, Contents(), includePath, searchPaths, program, r)
      ensures r == Cache.FirstReadable(
        env, Contents(), Cache.Directories(env, Contents(), searchPaths, program), includePath)
    {
      Origins.IncludeIsSearched(env, Contents(), includePath, searchPaths, program);
      hide Origins.IsSearched;
      ghost var dirs := Cache.Directories(env, Contents(), searchPaths, program);
      if program.Some? {
        var target := program.value;
        if target in foundIncludes {
          target := foundIncludes[target];
        }
        var parent := env.parentDirectory(target);
        if parent == "" {
          parent := ".";
        }
        assert dirs == [parent] + searchPaths && dirs[1..] == searchPaths;
        Cache.TryFirst(env, Contents(), dirs, includePath);
        r := TrySearchPath(includePath, parent);
        if r.Some? {
          return;
        }
      } else {
        assert dirs == searchPaths;
      }
      r := SearchPaths(includePath, searchPaths);
    }

    method SearchPaths(includePath: string, searchPaths: seq<string>) returns (r: Option<string>)
      ensures r == Cache.FirstReadable(env, Contents(), searchPaths, includePath)
    {
      var i := 0;
      assert searchPaths[i..] == searchPaths;
      while i < |searchPaths|
        invariant 0 <= i <= |searchPaths|
        invariant Cache.FirstReadable(env, Contents(), searchPaths[i..], includePath) ==
          Cache.FirstReadable(env, Contents(), searchPaths, includePath)
      {
        Cache.TryFirst(env, Contents(), searchPaths[i..], includePath);
        assert searchPaths[i..][1..] == searchPaths[i + 1..];
        hide Cache.FirstReadable;
        r := TrySearchPath(includePath, searchPaths[i]);
        if r.Some? {
          return;
        }
        i := i + 1;
      }
      r := None;
    }

    /** The file, line and column of a location; no answer stands for the
        exception thrown on a location that refers to no source. */
    method ResolveLocation(loc: Location) returns (r: Option<(string, nat, nat)>)
      requires Cache.Indexed(Contents())
      ensures r.Some? <==> 1 <= loc.sourceId <= |sources|
      ensures r.Some? ==>
        var source := sources[loc.sourceId - 1];
        r.value.0 == source.fileName &&
        (loc.offset < |source.text| ==>
          r.value.1 == Line(source.text, loc.offset) && r.value.2 == Column(source.text, loc.offset))
    {
      if loc == Location(0, 0) || loc.sourceId == 0 || loc.sourceId > |sources| {
        return None;
      }
      var source := sources[loc.sourceId - 1];
      assert Contents().sources[loc.sourceId - 1] == source;
      var line, column := LineAndColumn(source.text, source.lineOffsets, loc.offset);
      return Some((source.fileName, line, column));
    }
  }
}
