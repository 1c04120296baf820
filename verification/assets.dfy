/** The enumerations of src/main.cpp. As in C, an enumerator is an index into
    the asset table of its kind and the trailing `_COUNT` enumerator is that
    table's size. */
module Assets {

  // ShaderType
  const SHADER_SAMPLE_TEXTURE: int := 0
  const SHADER_POSITION_COLOR: int := 1
  const SHADER_TCOORD_COLOR: int := 2
  const SHADER_NORMAL_COLOR: int := 3
  const SHADER_TYPE_COUNT: int := 4

  // MeshType
  const MESH_PLANE: int := 0
  const MESH_SPHERE: int := 1
  const MESH_HEMISPHERE: int := 2
  const MESH_HEAD: int := 3
  const MESH_CT4: int := 4
  const MESH_TYPE_COUNT: int := 5

  // TextureType
  const TEXTURE_GRADIENT_WARM: int := 0
  const TEXTURE_GRADIENT_COOL: int := 1
  const TEXTURE_TYPE_COUNT: int := 2

  // A4DrawType
  const A4_PAR_SHAPES_NORMAL_SHADER: int := 0
  const A4_OBJ_FILE_TCOORDS_SHADER: int := 1
  const A4_CT4_TEXTURE_SHADER: int := 2
  const A4_MANUAL_MESH: int := 3
  const A4_CUSTOM_DRAW: int := 4
  const A4_TYPE_COUNT: int := 5

  /** `i` indexes a table of `count` entries. */
  predicate InRange(i: int, count: int) {
    0 <= i < count
  }
}
