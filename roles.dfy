/**
 * The roles and permissions matrix: for each role a map from permission to
 * whether the role has it. A permission missing from a role's map reads as
 * not granted.
 */
module RolesPermissions {
  type Matrix = map<string, map<string, bool>>

  /** `matrix[role]?.[permission] || false`. */
  function Granted(m: Matrix, role: string, permission: string): bool {
    role in m && permission in m[role] && m[role][permission]
  }

  /**
   * `togglePermission`: the role's map copied with the one permission negated;
   * a missing permission negates `undefined` and so becomes granted. The role
   * must be a key, since looking a permission up in a missing role's map fails.
   */
  function TogglePermission(m: Matrix, role: string, permission: string): (r: Matrix)
    requires role in m
    ensures r.Keys == m.Keys
    ensures Granted(r, role, permission) == !Granted(m, role, permission)
    ensures forall ro, p | ro != role || p != permission :: Granted(r, ro, p) == Granted(m, ro, p)
    ensures r[role].Keys == m[role].Keys + {permission}
  {
    m[role := m[role][permission := !(permission in m[role] && m[role][permission])]]
  }

  /** Toggling a cell twice reads the same everywhere as never toggling it. */
  lemma ToggleTwice(m: Matrix, role: string, permission: string)
    requires role in m
    ensures var t := TogglePermission(TogglePermission(m, role, permission), role, permission);
      forall ro, p :: Granted(t, ro, p) == Granted(m, ro, p)
  {
    var once := TogglePermission(m, role, permission);
    var t := TogglePermission(once, role, permission);
    forall ro, p
      ensures Granted(t, ro, p) == Granted(m, ro, p)
    {
      if ro == role && p == permission {
        assert Granted(t, ro, p) == !Granted(once, ro, p);
      }
    }
  }

  /** When the cell was stored, toggling twice gives back the very same matrix. */
  lemma ToggleTwiceStored(m: Matrix, role: string, permission: string)
    requires role in m && permission in m[role]
    ensures TogglePermission(TogglePermission(m, role, permission), role, permission) == m
  {
    var t := TogglePermission(TogglePermission(m, role, permission), role, permission);
    assert t[role] == m[role];
  }

  /** A cell missing from the role's map reads false, and one toggle grants it. */
  lemma ToggleMissingGrants(m: Matrix, role: string, permission: string)
    requires role in m && permission !in m[role]
    ensures !Granted(m, role, permission)
    ensures Granted(TogglePermission(m, role, permission), role, permission)
  {
  }
}
