/** The client's group store: which groups are collapsed, remembered per user and tenant. */
module CollapseStore {
  import opened Wrappers
  import opened GroupTree
  import opened Ancestry
  import opened Sequences
  import opened Text

  // ─── Storage ───

  const LEGACY_KEY := "ov-group-collapsed"

  const CONTEXT_PREFIX := "-u"

  function ContextName(userId: int, tenantId: int): string {
    Numeral(userId) + "-t" + Numeral(tenantId)
  }

  function OrZero(id: Option<int>): int {
    if id.Some? then id.value else 0
  }

  function CollapsedKey(userId: Option<int>, tenantId: Option<int>): string {
    if userId == None then LEGACY_KEY
    else LEGACY_KEY + (CONTEXT_PREFIX + ContextName(userId.value, OrZero(tenantId)))
  }

  /** What a storage entry decodes to. */
  datatype Stored = IdList(ids: set<int>) | Unreadable

  type Storage = map<string, Stored>

  function Load(storage: Storage, key: string): set<int> {
    if key in storage && storage[key].IdList? then storage[key].ids else {}
  }

  lemma ContextNameInjective(u: int, t: int, u': int, t': int)
    requires ContextName(u, t) == ContextName(u', t')
    ensures u == u' && t == t'
  {
    var a, a' := Numeral(u) + "-", Numeral(u') + "-";
    assert ContextName(u, t) == a + ['t'] + Numeral(t);
    assert ContextName(u', t') == a' + ['t'] + Numeral(t');
    CutAtFirst(a, Numeral(t), a', Numeral(t'), 't');
    assert a[..|a| - 1] == Numeral(u) && a'[..|a'| - 1] == Numeral(u');
    NumeralInjective(u, u');
    NumeralInjective(t, t');
  }

  /** Two contexts share a storage entry only if they are the same, no tenant counting as tenant 0. */
  lemma KeysAreInjective(u: Option<int>, t: Option<int>, u': Option<int>, t': Option<int>)
    ensures CollapsedKey(u, t) == CollapsedKey(u', t') <==>
      (u == None && u' == None) || (u.Some? && u == u' && OrZero(t) == OrZero(t'))
  {
    if u.Some? && u'.Some? {
      var n, n' := ContextName(u.value, OrZero(t)), ContextName(u'.value, OrZero(t'));
      SamePrefix(LEGACY_KEY, CONTEXT_PREFIX + n, CONTEXT_PREFIX + n');
      SamePrefix(CONTEXT_PREFIX, n, n');
      if n == n' {
        ContextNameInjective(u.value, OrZero(t), u'.value, OrZero(t'));
      }
    }
  }

  // ─── Actions ───

  datatype Action =
    | Toggle(id: int)
    | Expand(id: int)
    | ExpandAncestors(id: int)
    | Reinit(userId: Option<int>, tenantId: Option<int>)
    | SetTree(tree: Forest)

  datatype State = State(tree: Forest, collapsed: set<int>, activeKey: string, storage: Storage)

  function Elements(s: seq<int>): set<int> { set x | x in s }

  /** The collapsed set after an action that does not change context. */
  function Effect(tree: Forest, collapsed: set<int>, action: Action): set<int> {
    match action
    case Toggle(id) => if id in collapsed then collapsed - {id} else collapsed + {id}
    case Expand(id) => collapsed - {id}
    case ExpandAncestors(id) =>
      var ancestors := FindAncestorIds(tree, id, []);
      if ancestors == None || ancestors.value == [] then collapsed
      else collapsed - Elements(ancestors.value) - {id}
    case _ => collapsed
  }

  function Next(s: State, action: Action): State {
    match action
    case Reinit(userId, tenantId) =>
      var key := CollapsedKey(userId, tenantId);
      s.(activeKey := key, collapsed := Load(s.storage, key))
    case SetTree(tree) => s.(tree := tree)
    case _ =>
      var collapsed := Effect(s.tree, s.collapsed, action);
      if action.Toggle? || collapsed != s.collapsed then
        s.(collapsed := collapsed, storage := s.storage[s.activeKey := IdList(collapsed)])
      else
        s
  }

  class GroupStore {
    var tree: Forest
    var collapsedGroupIds: set<int>
    var activeKey: string
    var storage: Storage

    function Now(): State
      reads this
    {
      State(tree, collapsedGroupIds, activeKey, storage)
    }

    constructor (storage: Storage)
      ensures Now() == State([], Load(storage, LEGACY_KEY), LEGACY_KEY, storage)
    {
      this.storage := storage;
      tree, activeKey, collapsedGroupIds := [], LEGACY_KEY, Load(storage, LEGACY_KEY);
    }

    method SaveCollapsed(ids: set<int>)
      modifies this`storage
      ensures storage == old(storage)[activeKey := IdList(ids)]
      ensures Load(storage, activeKey) == ids
      ensures forall key :: key != activeKey ==> Load(storage, key) == old(Load(storage, key))
    {
      storage := storage[activeKey := IdList(ids)];
    }

    method ReinitForTenant(userId: Option<int>, tenantId: Option<int>)
      modifies this
      ensures Now() == Next(old(Now()), Reinit(userId, tenantId))
    {
      activeKey := CollapsedKey(userId, tenantId);
      collapsedGroupIds := Load(storage, activeKey);
    }

    method ToggleGroupExpanded(groupId: int)
      modifies this
      ensures Now() == Next(old(Now()), Toggle(groupId))
    {
      var collapsed := collapsedGroupIds;
      if groupId in collapsed {
        collapsed := collapsed - {groupId};
      } else {
        collapsed := collapsed + {groupId};
      }
      SaveCollapsed(collapsed);
      collapsedGroupIds := collapsed;
    }

    method ExpandGroup(groupId: int)
      modifies this
      ensures Now() == Next(old(Now()), Expand(groupId))
    {
      var collapsed := collapsedGroupIds;
      if groupId in collapsed {
        collapsed := collapsed - {groupId};
        SaveCollapsed(collapsed);
        collapsedGroupIds := collapsed;
      }
    }

    method ExpandAncestorsOf(groupId: int)
      modifies this
      ensures Now() == Next(old(Now()), ExpandAncestors(groupId))
    {
      var ancestors := FindAncestorIds(tree, groupId, []);
      if ancestors == None || ancestors.value == [] {
        return;
      }
      var collapsed := collapsedGroupIds;
      var changed := false;
      for i := 0 to |ancestors.value|
        invariant collapsed == collapsedGroupIds - Elements(ancestors.value[..i])
        invariant changed <==> collapsed != collapsedGroupIds
      {
        var id := ancestors.value[i];
        assert ancestors.value[..i + 1] == ancestors.value[..i] + [id];
        if id in collapsed {
          collapsed := collapsed - {id};
          changed := true;
        }
      }
      assert ancestors.value[..|ancestors.value|] == ancestors.value;
      if groupId in collapsed {
        collapsed := collapsed - {groupId};
        changed := true;
      }
      assert collapsed == Effect(tree, collapsedGroupIds, ExpandAncestors(groupId));
      if changed {
        SaveCollapsed(collapsed);
        collapsedGroupIds := collapsed;
      }
    }
  }

  // ─── Expanding down to a group ───

  /** Expanding to a group opens its proper ancestors and itself, and nothing else; a root target stays as it was. */
  lemma ExpandAncestorsIsExact(tree: Forest, collapsed: set<int>, g: int, x: int)
    requires DistinctIds(tree)
    ensures var pm := Parents(tree, None);
      x in Effect(tree, collapsed, ExpandAncestors(g)) <==>
        x in collapsed && !(g in pm && pm[g].Some? && (x == g || ProperAncestor(pm, x, g)))
  {
    var pm := Parents(tree, None);
    var ancestors := FindAncestorIds(tree, g, []);
    if ancestors.Some? {
      var path := ancestors.value;
      AncestorIdsAreTheChain(tree, g, path);
      assert Up(pm, Some(g), 1) == Up(pm, pm[g], 0) == pm[g];
      if path != [] {
        assert Up(pm, Some(g), |path| - (|path| - 1)) == Some(path[|path| - 1]);
      }
    }
  }

  /** A collapsed root stays collapsed when it is itself the group to show. */
  lemma RootTargetStaysCollapsed(g: int)
    ensures g in Effect([GroupNode(g, [])], {g}, ExpandAncestors(g))
  {
    var tree := [GroupNode(g, [])];
    assert FindAncestorIds(tree, g, []) == Some([]);
  }

  // ─── Single actions ───

  /** The text of a key, as other versions of the client find it in storage. */
  lemma KeyText(userId: int, tenantId: Option<int>)
    ensures CollapsedKey(None, tenantId) == "ov-group-collapsed"
    ensures CollapsedKey(Some(userId), tenantId)
         == "ov-group-collapsed" + "-u"
         + (Numeral(userId) + "-t" + if tenantId.Some? then Numeral(tenantId.value) else "0")
  {
    assert Numeral(0) == "0";
    Assoc(LEGACY_KEY, CONTEXT_PREFIX, ContextName(userId, OrZero(tenantId)));
  }

  /** Nothing stored, or nothing readable: everything is expanded. */
  lemma NothingLoaded(storage: Storage, key: string)
    ensures key !in storage || storage[key] == Unreadable ==> Load(storage, key) == {}
  {}

  /** A toggle changes exactly its group, and a second one undoes it; expanding removes exactly its group. */
  lemma ToggleTwice(tree: Forest, collapsed: set<int>, g: int, x: int)
    ensures x in Effect(tree, collapsed, Toggle(g)) <==> (x in collapsed) != (x == g)
    ensures Effect(tree, Effect(tree, collapsed, Toggle(g)), Toggle(g)) == collapsed
    ensures x in Effect(tree, collapsed, Expand(g)) <==> x in collapsed && x != g
  {
    var once := Effect(tree, collapsed, Toggle(g));
    if g in collapsed {
      assert (collapsed - {g}) + {g} == collapsed;
    } else {
      assert (collapsed + {g}) - {g} == collapsed;
    }
  }

  /** A toggle always writes the active entry; the other actions write it exactly if they change the set. */
  lemma WritesIff(s: State, action: Action)
    requires Consistent(s)
    ensures action.Reinit? || action.SetTree? ==> Next(s, action).storage == s.storage
    ensures action.Toggle? ==> Next(s, action).storage == s.storage[s.activeKey := IdList(Next(s, action).collapsed)]
    ensures action.Expand? || action.ExpandAncestors? ==>
      if Next(s, action).collapsed == s.collapsed then Next(s, action) == s
      else Next(s, action).storage == s.storage[s.activeKey := IdList(Next(s, action).collapsed)]
    ensures !action.Reinit? ==> Next(s, action).activeKey == s.activeKey
    ensures action.SetTree? ==> Next(s, action) == s.(tree := action.tree)
  {}

  // ─── Whole runs ───

  function Run(s: State, actions: seq<Action>): State
    decreases |actions|
  {
    if actions == [] then s else Run(Next(s, actions[0]), actions[1..])
  }

  /** What is on screen is what is stored for the active context. */
  ghost predicate Consistent(s: State) {
    Load(s.storage, s.activeKey) == s.collapsed
  }

  /** The effects, on one context's collapsed set, of the actions taken while that context is active. */
  ghost function OwnEffects(
      tree: Forest, active: string, actions: seq<Action>, key: string, current: set<int>): set<int>
    decreases |actions|
  {
    if actions == [] then
      current
    else
      match actions[0]
      case Reinit(u, t) => OwnEffects(tree, CollapsedKey(u, t), actions[1..], key, current)
      case SetTree(newTree) => OwnEffects(newTree, active, actions[1..], key, current)
      case action =>
        OwnEffects(tree, active, actions[1..], key, if active == key then Effect(tree, current, action) else current)
  }

  /**
   * Over every run, screen and storage agree at the end, and each context's stored set is what that context's
   * own actions made of it: no action ever reaches another context.
   */
  lemma {:induction false} RunsKeepContextsApart(s: State, actions: seq<Action>, key: string)
    requires Consistent(s)
    ensures Consistent(Run(s, actions))
    ensures Load(Run(s, actions).storage, key)
         == OwnEffects(s.tree, s.activeKey, actions, key, Load(s.storage, key))
    decreases |actions|
  {
    if actions != [] {
      RunsKeepContextsApart(Next(s, actions[0]), actions[1..], key);
    }
  }
}
