/** The module registration table of the editor: `ModuleResolver` writes each module's declaration text
    into the language-service host's extra-library table under three conventional virtual paths and keeps
    its own insertion-ordered table from module name to declaration text. */
module Resolver {
  import opened Ordered

  /** The editor host's extra-library table, from virtual path to declaration text. Only its overwrite
      effect is modelled. */
  class LanguageHost {
    var extraLibs: map<string, string>

    constructor (initial: map<string, string>)
      ensures extraLibs == initial
    {
      extraLibs := initial;
    }

    /** `addExtraLib(content, path)`: whatever was at `path` is replaced. */
    method AddExtraLib(content: string, path: string)
      modifies this
      ensures extraLibs == old(extraLibs)[path := content]
    {
      extraLibs := extraLibs[path := content];
    }
  }

  const NodeModules := "file:///node_modules/"

  /** The three paths a module's declaration is written under: the package root, the typed-package
      alias and the flat single file. */
  function ModulePaths(moduleName: string): (paths: seq<string>)
    ensures |paths| == 3
  {
    [ NodeModules + moduleName + "/index.d.ts",
      NodeModules + "@types/" + moduleName + "/index.d.ts",
      NodeModules + moduleName + ".d.ts" ]
  }

  /** Registration writes the text under the three literal paths. */
  lemma ModulePathsWritten(table: map<string, string>, moduleName: string, content: string)
    ensures var r := WriteAll(table, ModulePaths(moduleName), content);
      && "file:///node_modules/" + moduleName + "/index.d.ts" in r
      && r["file:///node_modules/" + moduleName + "/index.d.ts"] == content
      && "file:///node_modules/@types/" + moduleName + "/index.d.ts" in r
      && r["file:///node_modules/@types/" + moduleName + "/index.d.ts"] == content
      && "file:///node_modules/" + moduleName + ".d.ts" in r
      && r["file:///node_modules/" + moduleName + ".d.ts"] == content
  {
    var paths := ModulePaths(moduleName);
    assert NodeModules + "@types/" == "file:///node_modules/@types/";
    assert paths[1] == "file:///node_modules/@types/" + moduleName + "/index.d.ts";
    assert paths[0] in paths && paths[1] in paths && paths[2] in paths;
  }

  /** The three paths of one module are pairwise distinct (their lengths differ), so a registration
      performs three distinct writes. */
  lemma ModulePathsDistinct(moduleName: string)
    ensures NoDuplicates(ModulePaths(moduleName))
    ensures |ModulePaths(moduleName)[2]| < |ModulePaths(moduleName)[0]| < |ModulePaths(moduleName)[1]|
  {
  }

  /** Paths of different modules can coincide: the flat file of module `a/index` is the package-root
      file of module `a`, so registering the one overwrites a path of the other. */
  lemma ModulePathsOfDistinctModulesMayCoincide()
    ensures ModulePaths("a/index")[2] == ModulePaths("a")[0]
  {
  }

  /** The table after writing `content` at each of `paths` in turn. */
  function WriteAll(table: map<string, string>, paths: seq<string>, content: string): (r: map<string, string>)
    ensures forall p :: p in paths ==> p in r && r[p] == content
    ensures forall p :: p !in paths ==> (p in r <==> p in table)
    ensures forall p :: p !in paths && p in table ==> r[p] == table[p]
  {
    if paths == [] then table
    else WriteAll(table, paths[..|paths| - 1], content)[paths[|paths| - 1] := content]
  }

  lemma WriteAllSnoc(table: map<string, string>, paths: seq<string>, i: nat, content: string)
    requires i < |paths|
    ensures WriteAll(table, paths[..i + 1], content) == WriteAll(table, paths[..i], content)[paths[i] := content]
  {
    assert paths[..i + 1][..i] == paths[..i];
  }

  /** Writing the same text twice at the same paths leaves the table as writing it once. */
  lemma WriteAllIdempotent(table: map<string, string>, paths: seq<string>, content: string)
    ensures WriteAll(WriteAll(table, paths, content), paths, content) == WriteAll(table, paths, content)
  {
  }

  /** A second write at the same paths replaces the first entirely (last write wins). */
  lemma WriteAllLastWriteWins(table: map<string, string>, paths: seq<string>, first: string, second: string)
    ensures WriteAll(WriteAll(table, paths, first), paths, second) == WriteAll(table, paths, second)
  {
  }

  const DeclareModule := "declare module '"
  const ExportContent := "export = content;"
  const AmbientBody := " {\n  // Fallback ambient module declaration\n  const content: any;\n  "

  /** The fallback declaration for a module with no known types: the module is declared, and its
      export is a single value of type `any`. */
  function CreateAmbientDeclaration(moduleName: string): (decl: string)
    ensures Contains(decl, DeclareModule + moduleName + "'")
    ensures Contains(decl, ExportContent)
  {
    var header := DeclareModule + moduleName + "'";
    var decl := "\n" + header + AmbientBody + ExportContent + "\n}\n";
    OccursBetween("\n" + header + AmbientBody, ExportContent, "\n}\n");
    assert decl[1..1 + |header|] == header;
    assert OccursAt(decl, header, 1);
    decl
  }

  predicate OccursAt(s: string, sub: string, i: nat) {
    i + |sub| <= |s| && s[i..i + |sub|] == sub
  }

  predicate Contains(s: string, sub: string) {
    exists i: nat | i <= |s| :: OccursAt(s, sub, i)
  }

  lemma OccursBetween(before: string, sub: string, after: string)
    ensures OccursAt(before + sub + after, sub, |before|)
  {
    assert (before + sub + after)[|before|..|before| + |sub|] == sub;
  }

  /** Different module names give different fallback declarations. */
  lemma AmbientDeclarationInjective(a: string, b: string)
    requires CreateAmbientDeclaration(a) == CreateAmbientDeclaration(b)
    ensures a == b
  {
    var da, db := CreateAmbientDeclaration(a), CreateAmbientDeclaration(b);
    assert |a| == |b|;
    assert a == da[1 + |DeclareModule|..1 + |DeclareModule| + |a|];
    assert b == db[1 + |DeclareModule|..1 + |DeclareModule| + |b|];
  }

  const AmbientModulesPath := "file:///node_modules/@types/ambient-modules.d.ts"

  /** The hand-written declarations of the two pre-registered libraries. */
  const AmbientModulesDeclarations :=
    "\n" +
    "// Ambient module declarations for external libraries\n" +
    "declare module '@vapor-ui/core' {\n" +
    "  import { ReactNode, CSSProperties, ChangeEvent } from 'react';\n" +
    "  \n" +
    "  export interface ButtonProps {\n" +
    "    children?: ReactNode;\n" +
    "    onClick?: () => void;\n" +
    "    disabled?: boolean;\n" +
    "    variant?: 'primary' | 'secondary' | 'outline' | 'ghost';\n" +
    "    size?: 'sm' | 'md' | 'lg';\n" +
    "    className?: string;\n" +
    "    style?: CSSProperties;\n" +
    "  }\n" +
    "  export const Button: React.FC<ButtonProps>;\n" +
    "  \n" +
    "  export interface CardProps {\n" +
    "    children?: ReactNode;\n" +
    "    className?: string;\n" +
    "    style?: CSSProperties;\n" +
    "  }\n" +
    "  \n" +
    "  export const Card: React.FC<CardProps> & {\n" +
    "    Root: React.FC<CardProps>;\n" +
    "    Header: React.FC<CardProps>;\n" +
    "    Body: React.FC<CardProps>;\n" +
    "    Content: React.FC<CardProps>;\n" +
    "    Footer: React.FC<CardProps>;\n" +
    "    Title: React.FC<CardProps>;\n" +
    "    Description: React.FC<CardProps>;\n" +
    "  };\n" +
    "  \n" +
    "  export interface InputProps {\n" +
    "    value?: string;\n" +
    "    onChange?: (e: ChangeEvent<HTMLInputElement>) => void;\n" +
    "    placeholder?: string;\n" +
    "    disabled?: boolean;\n" +
    "    type?: 'text' | 'password' | 'email' | 'number';\n" +
    "    className?: string;\n" +
    "    style?: CSSProperties;\n" +
    "  }\n" +
    "  export const Input: React.FC<InputProps>;\n" +
    "  \n" +
    "  export interface SwitchProps {\n" +
    "    checked?: boolean;\n" +
    "    onCheckedChange?: (checked: boolean) => void;\n" +
    "    disabled?: boolean;\n" +
    "    className?: string;\n" +
    "    style?: CSSProperties;\n" +
    "  }\n" +
    "  export const Switch: React.FC<SwitchProps>;\n" +
    "  \n" +
    "  export interface ThemeProviderProps {\n" +
    "    children: ReactNode;\n" +
    "    theme?: 'light' | 'dark' | string;\n" +
    "  }\n" +
    "  export const ThemeProvider: React.FC<ThemeProviderProps>;\n" +
    "}\n" +
    "\n" +
    "declare module '@radix-ui/react-switch' {\n" +
    "  import { ReactNode } from 'react';\n" +
    "  \n" +
    "  export interface SwitchProps {\n" +
    "    checked?: boolean;\n" +
    "    onCheckedChange?: (checked: boolean) => void;\n" +
    "    disabled?: boolean;\n" +
    "    className?: string;\n" +
    "  }\n" +
    "  export const Root: React.FC<SwitchProps>;\n" +
    "  export const Thumb: React.FC<{ children?: ReactNode }>;\n" +
    "}\n"

  /** Recording one more registration keeps the table's key list equal to the distinct names registered. */
  lemma SetTracksRegistrations(m: OrderedMap<string, string>, registered: seq<string>, k: string, v: string)
    requires m.Valid() && m.keys == Dedup(registered)
    ensures m.Set(k, v).Valid() && m.Set(k, v).keys == Dedup(registered + [k])
  {
    DedupSnoc(registered, k);
  }

  class ModuleResolver {
    const host: LanguageHost
    var moduleMap: OrderedMap<string, string>
    /** Every module name passed to `RegisterModule`, in call order. */
    ghost var registered: seq<string>

    ghost predicate Valid()
      reads this
    {
      moduleMap.Valid() && moduleMap.keys == Dedup(registered)
    }

    constructor (host: LanguageHost)
      ensures Valid()
      ensures this.host == host && moduleMap == EmptyMap() && registered == []
    {
      this.host := host;
      moduleMap := EmptyMap();
      registered := [];
    }

    /** `registerModule`: writes the text under the module's three paths and records it in the table. */
    method RegisterModule(moduleName: string, typeContent: string)
      requires Valid()
      modifies this, host
      ensures Valid()
      ensures host.extraLibs == WriteAll(old(host.extraLibs), ModulePaths(moduleName), typeContent)
      ensures moduleMap == old(moduleMap).Set(moduleName, typeContent)
      ensures registered == old(registered) + [moduleName]
    {
      var paths := ModulePaths(moduleName);
      for i := 0 to |paths|
        invariant host.extraLibs == WriteAll(old(host.extraLibs), paths[..i], typeContent)
        invariant moduleMap == old(moduleMap) && registered == old(registered)
      {
        WriteAllSnoc(old(host.extraLibs), paths, i, typeContent);
        host.AddExtraLib(typeContent, paths[i]);
      }
      assert paths[..|paths|] == paths;
      SetTracksRegistrations(moduleMap, registered, moduleName, typeContent);
      moduleMap := moduleMap.Set(moduleName, typeContent);
      registered := registered + [moduleName];
      assert Valid();
    }

    /** `registerAmbientModules`: one write at the fixed ambient path; the module table is untouched. */
    method RegisterAmbientModules()
      requires Valid()
      modifies host
      ensures Valid()
      ensures host.extraLibs == old(host.extraLibs)[AmbientModulesPath := AmbientModulesDeclarations]
      ensures moduleMap == old(moduleMap) && registered == old(registered)
    {
      host.AddExtraLib(AmbientModulesDeclarations, AmbientModulesPath);
    }

    /** `getRegisteredModules`: every name ever registered, once each, in order of first registration. */
    function GetRegisteredModules(): (names: seq<string>)
      reads this
      requires Valid()
      ensures NoDuplicates(names)
      ensures forall n :: n in names <==> n in registered
      ensures forall n :: n in names <==> n in moduleMap.entries
      ensures InFirstOccurrenceOrder(names, registered)
    {
      DedupOrder(registered);
      moduleMap.keys
    }
  }
}
